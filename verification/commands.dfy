/** `Command`: the descriptor every shell command provides, with the
  defaults of the base class, and the metadata of the built-in commands.
 */
module Commands {
  import opened Wrappers

  /** `CommandResultCode`. */
  datatype ResultCode = Success | SyntaxError | ExecutionFailed

  /** The concrete class of a command, which `Unregister(Type)` and
      `GetCommandNames(Type)` compare; `Custom` stands for any class outside
      the built-ins. */
  datatype Kind =
    | AliasKind | UnaliasKind | AliasesKind | SetKind | UnsetKind
    | SetPropertyKind | ResetPropertyKind | EchoKind | AliasedKind
    | Custom(id: nat)

  /** What the dispatcher reads from a command. `aliases`, `group` and
      `synopsis` are null where the source allows null; `application` is the
      owning application once registered. */
  datatype Command = Command(
    name: string,
    kind: Kind,
    aliases: Option<seq<string>>,
    group: Option<string>,
    synopsis: Option<seq<string>>,
    requiresContext: bool,
    commandCompletion: bool,
    application: Option<nat>)

  /** A command that overrides nothing but `Name`. */
  function Define(name: string, kind: Kind): Command {
    Command(name, kind, Some([]), None, Some([name]), false, true, None)
  }

  /** `HasAliases`. */
  predicate HasAliases(c: Command) {
    c.aliases.Some? && |c.aliases.value| > 0
  }

  /** `HasGroup`. */
  predicate HasGroup(c: Command) {
    c.group.Some? && |c.group.value| > 0
  }

  /** The aliases registration walks: none unless `HasAliases`. */
  function AliasList(c: Command): (r: seq<string>)
    ensures HasAliases(c) ==> r == c.aliases.value
    ensures !HasAliases(c) ==> r == []
  {
    if HasAliases(c) then c.aliases.value else []
  }

  /** `IsComplete` of the base class: every statement is complete. */
  function IsCompleteDefault(c: Command, text: string): bool {
    true
  }

  /** `Complete` of the base class: no candidates (null). */
  function CompleteDefault(c: Command, partialCommand: string, lastWord: string): Option<seq<string>> {
    None
  }

  /** The base-class defaults: one synopsis line equal to the name, no
      aliases, no group, no context needed, listed in command completion,
      complete on every text, no completion candidates, and no owner before
      registration. */
  lemma Defaults(name: string, kind: Kind, text: string, partial: string, lastWord: string)
    ensures var c := Define(name, kind);
      && c.synopsis == Some([c.name])
      && !HasAliases(c) && AliasList(c) == []
      && !HasGroup(c)
      && !c.requiresContext && c.commandCompletion
      && IsCompleteDefault(c, text)
      && CompleteDefault(c, partial, lastWord) == None
      && c.application.None?
  {
  }

  /** `EchoCommand`, with its only alias "prompt". */
  const Echo := Define("echo", EchoKind).(aliases := Some(["prompt"]), synopsis := Some(["echo <whatever>"]))

  /** `AliasCommand`. */
  const AliasCmd := Define("alias", AliasKind)

  /** `UnaliasCommand`. */
  const Unalias := Define("unalias", UnaliasKind).(group := Some("aliases"), synopsis := Some(["unalias <alias-name>"]))

  /** `SetCommand`. */
  const SetCmd := Define("set", SetKind).(group := Some("variables"), synopsis := Some(["set <varname> <value>"]))

  /** `SetPropertyCommand`. */
  const SetProperty := Define("set-property", SetPropertyKind).(group := Some("properties"), synopsis := Some(["set-property <propert-name> <value>"]))

  /** `ResetPropertyCommand`. */
  const ResetProperty := Define("reset-property", ResetPropertyKind).(group := Some("variables"), synopsis := Some(["reset-property <property-name>"]))

  /** `AliasesCommand` (its printing is not modelled). */
  const AliasesCmd := Define("aliases", AliasesKind).(group := Some("aliases"))

  /** The dispatcher entry `AddAlias` creates for an alias. */
  function Aliased(alias: string): (c: Command)
    ensures c.name == alias && c.kind == AliasedKind && !c.requiresContext
  {
    Define(alias, AliasedKind)
  }

  /** Echo is reachable under two names; the other built-ins under one. */
  lemma BuiltinNames()
    ensures HasAliases(Echo) && AliasList(Echo) == ["prompt"]
    ensures !HasAliases(AliasCmd) && !HasAliases(Unalias) && !HasAliases(SetCmd)
    ensures HasGroup(Unalias) && HasGroup(SetCmd) && !HasGroup(Echo) && !HasGroup(AliasCmd)
  {
  }
}
