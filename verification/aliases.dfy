/** The table half of `CommandAliases`: alias name to expansion, the dirty
  flag, the in-flight list of aliases being expanded, the attached
  configuration store, and whether the back-reference to the dispatcher is
  set.
 */
module Aliases {
  import opened Wrappers
  import opened SortedMaps
  import Ordinal

  datatype AliasTable = AliasTable(
    table: SortedMap<string>,
    dirty: bool,
    inFlight: seq<string>,
    file: Option<SortedMap<string>>,
    dispatcherSet: bool)

  /** The table the constructor builds. Its `dispatcher = dispatcher;`
      assigns the parameter to itself, so the dispatcher field stays null. */
  const EmptyTable := AliasTable([], false, [], None, false)

  /** `HasAlias`. */
  predicate HasAlias(a: AliasTable, alias: string) {
    alias in ToMap(a.table)
  }

  /** An alias is known exactly when some entry of the table carries it. */
  lemma HasAliasEntry(a: AliasTable, alias: string)
    ensures HasAlias(a, alias) <==> exists i :: 0 <= i < |a.table| && a.table[i].0 == alias
  {
    InToMap(a.table, alias);
    if alias in Keys(a.table) {
      var i :| 0 <= i < |a.table| && Keys(a.table)[i] == alias;
      assert a.table[i].0 == alias;
    }
  }

  /** `IsAliasOf`. */
  function IsAliasOf(a: AliasTable, alias: string, commandName: string): (r: bool)
    ensures r <==> HasAlias(a, alias) && ToMap(a.table)[alias] == commandName
  {
    match Get(a.table, alias)
    case None => false
    case Some(v) => v == commandName
  }

  /** `GetCommandAliases`: in key order, the aliases expanding to exactly
      `commandName`. */
  function GetCommandAliases(a: AliasTable, commandName: string): (r: seq<string>)
    ensures forall x :: x in r <==> IsAliasOf(a, x, commandName)
    ensures forall i, j :: 0 <= i < j < |r| ==> Ordinal.Less(r[i], r[j])
  {
    AliasesOf(a.table, commandName)
  }

  function AliasesOf(m: SortedMap<string>, commandName: string): (r: seq<string>)
    ensures forall x :: x in r <==> x in ToMap(m) && ToMap(m)[x] == commandName
    ensures forall i :: 0 <= i < |r| ==> exists j :: 0 <= j < |m| && m[j].0 == r[i]
    ensures forall i, j :: 0 <= i < j < |r| ==> Ordinal.Less(r[i], r[j])
    decreases |m|
  {
    if |m| == 0 then []
    else
      var t: SortedMap<string> := m[1..];
      var rest := AliasesOf(t, commandName);
      NotInTail(m);
      ToMapAt(m, 0);
      forall i | 0 <= i < |rest| ensures Ordinal.Less(m[0].0, rest[i]) {
        var j :| 0 <= j < |t| && t[j].0 == rest[i];
        assert m[j + 1] == t[j];
      }
      forall i | 0 <= i < |rest| ensures exists j :: 0 <= j < |m| && m[j].0 == rest[i] {
        var j :| 0 <= j < |t| && t[j].0 == rest[i];
        assert m[j + 1] == t[j];
      }
      if m[0].1 == commandName then [m[0].0] + rest else rest
  }

  /** `LoadFromFile`: the table becomes the file's entries and the file is
      attached; the dirty flag is left alone. */
  function LoadFromFile(a: AliasTable, file: SortedMap<string>): (r: AliasTable)
    ensures ToMap(r.table) == ToMap(file) && r.file == Some(file)
    ensures r.dirty == a.dirty && r.inFlight == a.inFlight
  {
    a.(table := file, file := Some(file))
  }

  /** `Save`: only with a file attached and the table dirty; the file then
      holds exactly the table, and dirty is cleared. */
  function Save(a: AliasTable): (r: AliasTable)
    ensures !(a.file.Some? && a.dirty) ==> r == a
    ensures a.file.Some? && a.dirty ==> !r.dirty && r.file.Some? && ToMap(r.file.value) == ToMap(a.table)
    ensures r.table == a.table
  {
    if a.file.Some? && a.dirty then a.(file := Some(a.table), dirty := false) else a
  }
}
