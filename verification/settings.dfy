/** `ApplicationSettings`: the user variables of `set`/`unset`, their `$NAME`
  and `${NAME}` expansion in command text, and their completion.
 */
module Settings {
  import opened Wrappers
  import opened Ordinal
  import opened Strings
  import opened SortedMaps
  import opened Subsets
  import opened SortedMatch
  import opened Commands
  import opened Dispatching

  /** The variable the shell keeps the last executed command in. */
  const LastCommand := "_SHELLAPP_LAST_COMMAND"

  /** Variables that are never written back to the settings file. */
  const SpecialVariables: seq<string> := [LastCommand]

  datatype AppSettings = AppSettings(variables: SortedMap<string>)

  const NoSettings := AppSettings([])

  /** `SetVariable`: insert or overwrite. */
  function SetVariable(s: AppSettings, name: string, value: string): (r: AppSettings)
    ensures HasVariable(r, name) && ToMap(r.variables)[name] == value
    ensures forall k :: k != name ==> (HasVariable(r, k) <==> HasVariable(s, k))
    ensures forall k :: k != name && HasVariable(s, k) ==> HasVariable(r, k) && ToMap(r.variables)[k] == ToMap(s.variables)[k]
  {
    AppSettings(Put(s.variables, name, value))
  }

  /** `RemoveVariable`: an absent name is no error. */
  function RemoveVariable(s: AppSettings, name: string): (r: AppSettings)
    ensures !HasVariable(r, name)
    ensures forall k :: k != name ==> (HasVariable(r, k) <==> HasVariable(s, k))
    ensures forall k :: HasVariable(r, k) ==> HasVariable(s, k) && ToMap(r.variables)[k] == ToMap(s.variables)[k]
  {
    AppSettings(Remove(s.variables, name))
  }

  predicate HasVariable(s: AppSettings, name: string) {
    name in ToMap(s.variables)
  }

  /** Setting and then removing a variable leaves the others as they were. */
  lemma SetRemove(s: AppSettings, name: string, value: string)
    ensures ToMap(RemoveVariable(SetVariable(s, name, value), name).variables) == ToMap(s.variables) - {name}
  {
  }

  /** The `CommandExecuted` handler: the trimmed command text becomes the
      value of the last-command variable. */
  function OnCommandExecuted(s: AppSettings, commandText: string): (r: AppSettings)
    ensures HasVariable(r, LastCommand) && ToMap(r.variables)[LastCommand] == Trim(commandText)
    ensures forall k :: k != LastCommand ==> (HasVariable(r, k) <==> HasVariable(s, k))
  {
    SetVariable(s, LastCommand, Trim(commandText))
  }

  /** The variables `SaveSettings` writes: all but the special ones. */
  function Persisted(s: AppSettings): (r: map<string, string>)
    ensures forall k :: k in r <==> HasVariable(s, k) && k !in SpecialVariables
    ensures forall k :: k in r ==> HasVariable(s, k) && r[k] == ToMap(s.variables)[k]
  {
    map k | k in ToMap(s.variables) && k !in SpecialVariables :: ToMap(s.variables)[k]
  }

  // ---------------------------------------------------------------------
  // Expansion

  /** `a` in front of a successful result; a failure passes through. */
  function Prepend(a: string, r: Result<string>): Result<string> {
    if r.Ok? then Ok(a + r.value) else r
  }

  lemma PrependEmpty(r: Result<string>)
    ensures Prepend("", r) == r
  {
    if r.Ok? {
      assert "" + r.value == r.value;
    }
  }

  lemma PrependPrepend(a: string, b: string, r: Result<string>)
    ensures Prepend(a, Prepend(b, r)) == Prepend(a + b, r)
  {
    if r.Ok? {
      assert a + (b + r.value) == (a + b) + r.value;
    }
  }

  /** Length of the leading run of letters and digits. */
  function AlnumPrefix(s: string): (n: nat)
    ensures n <= |s|
    ensures forall j :: 0 <= j < n ==> IsLetterOrDigit(s[j])
    ensures n < |s| ==> !IsLetterOrDigit(s[n])
    decreases |s|
  {
    if |s| == 0 || !IsLetterOrDigit(s[0]) then 0 else 1 + AlnumPrefix(s[1..])
  }

  /** A set variable's value, or the text it was written as. */
  function Lookup(vars: map<string, string>, name: string, written: string): string {
    if name in vars then vars[name] else written
  }

  /** What a dollar at the front of the text stands for: a replacement
      covering some characters, the rest kept as it is, or a read past the
      end. */
  datatype Token = Replaced(text: string, length: nat) | KeepRest | ReadPastEnd

  /** `$$` is one dollar; `$` and a run of letters and digits is that
      variable; `${`, a run of letters and digits, anything up to the next
      `}` and the `}` is the variable named by the run; without a closing
      brace the rest is kept as it is; an unset variable keeps its text; a
      `$` at the very end reads past the string. */
  function DollarToken(vars: map<string, string>, s: string): (t: Token)
    requires |s| > 0 && s[0] == '$'
    ensures t.Replaced? ==> 0 < t.length <= |s|
  {
    if |s| == 1 then ReadPastEnd
    else if s[1] == '$' then Replaced("$", 2)
    else if s[1] == '{' then
      var n := AlnumPrefix(s[2..]);
      match IndexOf(s, '}', 2 + n)
      case None => KeepRest
      case Some(j) => Replaced(Lookup(vars, s[2..2 + n], s[..j + 1]), j + 1)
    else
      var n := AlnumPrefix(s[1..]);
      Replaced(Lookup(vars, s[1..1 + n], s[..1 + n]), 1 + n)
  }

  /** Reference expansion, token by token from the front. */
  function Expand(vars: map<string, string>, s: string): (r: Result<string>)
    decreases |s|
  {
    if |s| == 0 then Ok("")
    else if s[0] != '$' then Prepend(s[..1], Expand(vars, s[1..]))
    else match DollarToken(vars, s)
      case ReadPastEnd => Throw(IndexOutOfRange)
      case KeepRest => Ok(s)
      case Replaced(text, n) => Prepend(text, Expand(vars, s[n..]))
  }

  /** `Substitute`, with the source's scanning loops. */
  method Substitute(s: AppSettings, input: string) returns (r: Result<string>)
    ensures r == Expand(ToMap(s.variables), input)
  {
    var vars := ToMap(s.variables);
    var pos := 0;
    var endpos := 0;
    var result := "";
    StepStart(vars, input);
    while true
      invariant 0 <= endpos <= pos <= |input|
      invariant Expand(vars, input) == Prepend(result + input[endpos..pos], Expand(vars, input[pos..]))
      decreases |input| - pos
    {
      var found := IndexOf(input, '$', pos);
      if found.None? {
        StepLast(vars, input, result, endpos, pos);
        break;
      }
      var p := found.value;
      var startVar := p;
      if p + 1 == |input| {
        StepPastEnd(vars, input, result, endpos, pos, p);
        return Throw(IndexOutOfRange);
      }
      if input[p + 1] == '$' {
        // a quoted dollar: the second one starts the next stretch of text
        StepQuoted(vars, input, result, endpos, pos, p);
        result := result + input[endpos..p];
        endpos := p + 1;
        pos := p + 2;
        continue;
      }
      var t := ScanVariable(vars, input, p);
      if t.KeepRest? {
        // no closing brace: the rest is kept as written
        StepKeepRest(vars, input, result, endpos, pos, p);
        return Ok(result + input[endpos..p] + input[startVar..]);
      }
      var e := p + t.length;
      StepReplaced(vars, input, result, endpos, pos, p, t.text, e);
      result := result + input[endpos..p] + t.text;
      pos := e;
      endpos := e;
    }
    return Ok(result + input[endpos..]);
  }

  /** The loop starts with nothing expanded. */
  lemma StepStart(vars: map<string, string>, input: string)
    ensures Expand(vars, input) == Prepend("" + input[0..0], Expand(vars, input[0..]))
  {
    assert input[0..] == input && "" + input[0..0] == "";
    PrependEmpty(Expand(vars, input));
  }

  /** No dollar is left: the rest is copied. */
  lemma StepLast(vars: map<string, string>, input: string, result: string, endpos: nat, pos: nat)
    requires endpos <= pos <= |input|
    requires forall j :: pos <= j < |input| ==> input[j] != '$'
    requires Expand(vars, input) == Prepend(result + input[endpos..pos], Expand(vars, input[pos..]))
    ensures Expand(vars, input) == Ok(result + input[endpos..])
  {
    NoDollar(vars, input[pos..]);
    assert input[endpos..] == input[endpos..pos] + input[pos..];
    assert (result + input[endpos..pos]) + input[pos..] == result + input[endpos..];
  }

  /** The text before the dollar at `p` is copied. */
  lemma StepToDollar(vars: map<string, string>, input: string, result: string, endpos: nat, pos: nat, p: nat)
    requires endpos <= pos <= p < |input|
    requires forall j :: pos <= j < p ==> input[j] != '$'
    requires Expand(vars, input) == Prepend(result + input[endpos..pos], Expand(vars, input[pos..]))
    ensures Expand(vars, input) == Prepend(result + input[endpos..p], Expand(vars, input[p..]))
  {
    SkipToDollar(vars, input, pos, p);
    PrependPrepend(result + input[endpos..pos], input[pos..p], Expand(vars, input[p..]));
    assert (result + input[endpos..pos]) + input[pos..p] == result + input[endpos..p];
  }

  /** A dollar as the last character throws. */
  lemma StepPastEnd(vars: map<string, string>, input: string, result: string, endpos: nat, pos: nat, p: nat)
    requires endpos <= pos <= p && p + 1 == |input| && input[p] == '$'
    requires forall j :: pos <= j < p ==> input[j] != '$'
    requires Expand(vars, input) == Prepend(result + input[endpos..pos], Expand(vars, input[pos..]))
    ensures Expand(vars, input) == Throw(IndexOutOfRange)
  {
    StepToDollar(vars, input, result, endpos, pos, p);
    ExpandAtEnd(vars, input, p);
  }

  /** A doubled dollar: the text up to it is copied and the second dollar
      starts the next stretch of copied text. */
  lemma StepQuoted(vars: map<string, string>, input: string, result: string, endpos: nat, pos: nat, p: nat)
    requires endpos <= pos <= p && p + 1 < |input| && input[p] == '$' && input[p + 1] == '$'
    requires forall j :: pos <= j < p ==> input[j] != '$'
    requires Expand(vars, input) == Prepend(result + input[endpos..pos], Expand(vars, input[pos..]))
    ensures Expand(vars, input) == Prepend((result + input[endpos..p]) + input[p + 1..p + 2], Expand(vars, input[p + 2..]))
  {
    StepToDollar(vars, input, result, endpos, pos, p);
    TokenQuoted(vars, input, p);
    ExpandAtToken(vars, input, p, "$", p + 2);
    assert input[p + 1..p + 2] == "$";
    PrependPrepend(result + input[endpos..p], "$", Expand(vars, input[p + 2..]));
  }

  /** An unclosed brace: the rest is kept as written. */
  lemma StepKeepRest(vars: map<string, string>, input: string, result: string, endpos: nat, pos: nat, p: nat)
    requires endpos <= pos <= p < |input| && input[p] == '$'
    requires forall j :: pos <= j < p ==> input[j] != '$'
    requires DollarToken(vars, input[p..]) == KeepRest
    requires Expand(vars, input) == Prepend(result + input[endpos..pos], Expand(vars, input[pos..]))
    ensures Expand(vars, input) == Ok(result + input[endpos..p] + input[p..])
  {
    StepToDollar(vars, input, result, endpos, pos, p);
  }

  /** A variable reference: the text up to it is copied, then its
      replacement. */
  lemma StepReplaced(vars: map<string, string>, input: string, result: string, endpos: nat, pos: nat, p: nat, text: string, e: nat)
    requires endpos <= pos <= p < e <= |input| && input[p] == '$'
    requires forall j :: pos <= j < p ==> input[j] != '$'
    requires DollarToken(vars, input[p..]) == Replaced(text, e - p)
    requires Expand(vars, input) == Prepend(result + input[endpos..pos], Expand(vars, input[pos..]))
    ensures Expand(vars, input) == Prepend(result + input[endpos..p] + text + input[e..e], Expand(vars, input[e..]))
  {
    StepToDollar(vars, input, result, endpos, pos, p);
    ExpandAtToken(vars, input, p, text, e);
    PrependPrepend(result + input[endpos..p], text, Expand(vars, input[e..]));
    assert result + input[endpos..p] + text + input[e..e] == (result + input[endpos..p]) + text;
  }

  /** The variable reference at the dollar at `p` (not a doubled dollar and
      not the last character): the name scan, the brace scan, and the
      replacement or the text as written. */
  method ScanVariable(vars: map<string, string>, input: string, p: nat) returns (t: Token)
    requires p + 1 < |input| && input[p] == '$' && input[p + 1] != '$'
    ensures t == DollarToken(vars, input[p..])
    ensures t.Replaced? ==> p + t.length <= |input|
  {
    if input[p + 1] == '{' {
      t := ScanBraced(vars, input, p);
    } else {
      t := ScanPlain(vars, input, p);
    }
  }

  /** `$name`: the name runs to the first character that is not a letter
      or digit. */
  method ScanPlain(vars: map<string, string>, input: string, p: nat) returns (t: Token)
    requires p + 1 < |input| && input[p] == '$' && input[p + 1] != '$' && input[p + 1] != '{'
    ensures t == DollarToken(vars, input[p..])
    ensures t.Replaced? ==> p + t.length <= |input|
  {
    var e := ScanName(input, p + 1);
    TokenPlain(vars, input, p, e);
    t := Replaced(Lookup(vars, input[p + 1..e], input[p..e]), e - p);
  }

  /** `${name}`: the name, then the search for the closing brace; without
      one the rest of the text is kept as written. */
  method ScanBraced(vars: map<string, string>, input: string, p: nat) returns (t: Token)
    requires p + 1 < |input| && input[p] == '$' && input[p + 1] == '{'
    ensures t == DollarToken(vars, input[p..])
    ensures t.Replaced? ==> p + t.length <= |input|
  {
    var e := ScanName(input, p + 2);
    var close := ScanBrace(input, e);
    if close == |input| {
      TokenBracedOpen(vars, input, p, e);
      return KeepRest;
    }
    TokenBracedClosed(vars, input, p, e, close);
    t := Replaced(Lookup(vars, input[p + 2..e], input[p..close + 1]), close + 1 - p);
  }

  /** The loop over the letters and digits of a variable name. */
  method ScanName(input: string, from: nat) returns (e: nat)
    requires from <= |input|
    ensures e == from + AlnumPrefix(input[from..])
  {
    e := from;
    while e < |input| && IsLetterOrDigit(input[e])
      invariant from <= e <= |input|
      invariant e - from + AlnumPrefix(input[e..]) == AlnumPrefix(input[from..])
      decreases |input| - e
    {
      assert input[e..][1..] == input[e + 1..];
      e := e + 1;
    }
  }

  /** The loop to the closing brace: its index, or the length without one. */
  method ScanBrace(input: string, from: nat) returns (e: nat)
    requires from <= |input|
    ensures IndexOf(input, '}', from).Some? ==> e == IndexOf(input, '}', from).value
    ensures IndexOf(input, '}', from).None? ==> e == |input|
  {
    e := from;
    while e < |input| && input[e] != '}'
      invariant from <= e <= |input|
      invariant IndexOf(input, '}', e) == IndexOf(input, '}', from)
      decreases |input| - e
    {
      e := e + 1;
    }
  }

  /** The text from `pos` up to the next dollar at `p` is copied through. */
  lemma SkipToDollar(vars: map<string, string>, input: string, pos: nat, p: nat)
    requires pos <= p <= |input|
    requires forall j :: pos <= j < p ==> input[j] != '$'
    ensures Expand(vars, input[pos..]) == Prepend(input[pos..p], Expand(vars, input[p..]))
  {
    NoDollarBefore(vars, input[pos..], p - pos);
    assert input[pos..][..p - pos] == input[pos..p] && input[pos..][p - pos..] == input[p..];
  }

  /** A dollar at the end throws. */
  lemma ExpandAtEnd(vars: map<string, string>, input: string, p: nat)
    requires p + 1 == |input| && input[p] == '$'
    ensures Expand(vars, input[p..]) == Throw(IndexOutOfRange)
  {
  }

  /** A token covering `n` characters, in terms of `input`'s indices. */
  lemma ExpandAtToken(vars: map<string, string>, input: string, p: nat, text: string, e: nat)
    requires p < e <= |input| && input[p] == '$'
    requires DollarToken(vars, input[p..]) == Replaced(text, e - p)
    ensures Expand(vars, input[p..]) == Prepend(text, Expand(vars, input[e..]))
  {
    assert input[p..][e - p..] == input[e..];
  }

  /** A doubled dollar is one dollar. */
  lemma TokenQuoted(vars: map<string, string>, input: string, p: nat)
    requires p + 1 < |input| && input[p] == '$' && input[p + 1] == '$'
    ensures DollarToken(vars, input[p..]) == Replaced("$", 2)
  {
    assert input[p..][1] == '$';
  }

  /** `$` and a name, in terms of `input`'s indices. */
  lemma TokenPlain(vars: map<string, string>, input: string, p: nat, e: nat)
    requires p + 1 < |input| && input[p] == '$' && input[p + 1] != '$' && input[p + 1] != '{'
    requires e == p + 1 + AlnumPrefix(input[p + 1..])
    ensures DollarToken(vars, input[p..]) == Replaced(Lookup(vars, input[p + 1..e], input[p..e]), e - p)
  {
    var t := input[p..];
    var n := e - (p + 1);
    assert t[1] == input[p + 1];
    assert t[1..] == input[p + 1..];
    assert t[1..1 + n] == input[p + 1..e] && t[..1 + n] == input[p..e];
  }

  /** `${` and a name without a closing brace after it. */
  lemma TokenBracedOpen(vars: map<string, string>, input: string, p: nat, e: nat)
    requires p + 1 < |input| && input[p] == '$' && input[p + 1] == '{'
    requires e == p + 2 + AlnumPrefix(input[p + 2..])
    requires IndexOf(input, '}', e).None?
    ensures DollarToken(vars, input[p..]) == KeepRest
  {
    BracedShape(input, p, e);
    IndexOfShift(input, p, e - p);
  }

  /** `${` and a name, up to the closing brace at `j`. */
  lemma TokenBracedClosed(vars: map<string, string>, input: string, p: nat, e: nat, j: nat)
    requires p + 1 < |input| && input[p] == '$' && input[p + 1] == '{'
    requires e == p + 2 + AlnumPrefix(input[p + 2..])
    requires IndexOf(input, '}', e) == Some(j)
    ensures DollarToken(vars, input[p..]) == Replaced(Lookup(vars, input[p + 2..e], input[p..j + 1]), j + 1 - p)
  {
    TokenShape(input, p, e, j);
    ClosedToken(vars, input[p..], e - (p + 2), j - p, input[p + 2..e], input[p..j + 1]);
  }

  /** The token starting at `p`, seen on its own: where its name and its
      closing brace are. */
  lemma TokenShape(input: string, p: nat, e: nat, j: nat)
    requires p + 1 < |input| && input[p] == '$' && input[p + 1] == '{'
    requires e == p + 2 + AlnumPrefix(input[p + 2..])
    requires IndexOf(input, '}', e) == Some(j)
    ensures var t, n, k := input[p..], e - (p + 2), j - p;
      && |t| > 1 && t[0] == '$' && t[1] == '{' && n == AlnumPrefix(t[2..]) && j >= p
      && IndexOf(t, '}', 2 + n) == Some(k) && t[2..2 + n] == input[p + 2..e] && t[..k + 1] == input[p..j + 1]
  {
    var t := input[p..];
    var n := e - (p + 2);
    var k := j - p;
    BracedShape(input, p, e);
    ShiftedClose(input, p, e, j);
    assert t[2..2 + n] == input[p + 2..e];
    assert t[..k + 1] == input[p..j + 1];
  }

  lemma ShiftedClose(input: string, p: nat, e: nat, j: nat)
    requires p <= e <= |input|
    requires IndexOf(input, '}', e) == Some(j)
    ensures p <= j && IndexOf(input[p..], '}', e - p) == Some(j - p)
  {
    IndexOfShift(input, p, e - p);
  }

  lemma ClosedToken(vars: map<string, string>, t: string, n: nat, k: nat, name: string, whole: string)
    requires |t| > 1 && t[0] == '$' && t[1] == '{'
    requires n == AlnumPrefix(t[2..])
    requires IndexOf(t, '}', 2 + n) == Some(k)
    requires name == t[2..2 + n] && whole == t[..k + 1]
    ensures DollarToken(vars, t) == Replaced(Lookup(vars, name, whole), k + 1)
  {
  }

  lemma BracedShape(input: string, p: nat, e: nat)
    requires p + 1 < |input| && input[p + 1] == '{'
    requires e == p + 2 + AlnumPrefix(input[p + 2..])
    ensures var t := input[p..]; |t| > 1 && t[1] == '{' && AlnumPrefix(t[2..]) == e - (p + 2) && t[2..e - p] == input[p + 2..e]
  {
    var t := input[p..];
    assert t[2..] == input[p + 2..];
  }

  /** Searching a suffix is searching the whole from further on. */
  lemma {:induction false} IndexOfShift(input: string, p: nat, k: nat)
    requires p + k <= |input|
    ensures IndexOf(input[p..], '}', k).None? <==> IndexOf(input, '}', p + k).None?
    ensures IndexOf(input, '}', p + k).Some? ==> IndexOf(input[p..], '}', k) == Some(IndexOf(input, '}', p + k).value - p)
    decreases |input| - (p + k)
  {
    if p + k < |input| {
      assert input[p..][k] == input[p + k];
      IndexOfShift(input, p, k + 1);
    }
  }

  /** Text without a dollar expands to itself. */
  lemma {:induction false} NoDollar(vars: map<string, string>, s: string)
    requires '$' !in s
    ensures Expand(vars, s) == Ok(s)
    decreases |s|
  {
    if |s| > 0 {
      NoDollar(vars, s[1..]);
      assert s == s[..1] + s[1..];
    }
  }

  /** A stretch without a dollar is copied through. */
  lemma {:induction false} NoDollarBefore(vars: map<string, string>, s: string, k: nat)
    requires k <= |s| && forall j :: 0 <= j < k ==> s[j] != '$'
    ensures Expand(vars, s) == Prepend(s[..k], Expand(vars, s[k..]))
    decreases k
  {
    if k == 0 {
      PrependEmpty(Expand(vars, s));
      assert s[0..] == s;
    } else {
      assert s[0] != '$';
      NoDollarBefore(vars, s[1..], k - 1);
      PrependPrepend(s[..1], s[1..k], Expand(vars, s[k..]));
      assert s[1..][..k - 1] == s[1..k] && s[1..][k - 1..] == s[k..];
      assert s[..k] == s[..1] + s[1..k];
    }
  }

  /** Every dollar doubled: what a user types to mean the text itself. */
  function QuoteDollars(s: string): (r: string)
    ensures |r| >= |s|
    decreases |s|
  {
    if |s| == 0 then ""
    else (if s[0] == '$' then "$$" else s[..1]) + QuoteDollars(s[1..])
  }

  /** Doubled dollars expand back to the text, whatever the variables are. */
  lemma {:induction false} QuotedExpandsToItself(vars: map<string, string>, s: string)
    ensures Expand(vars, QuoteDollars(s)) == Ok(s)
    decreases |s|
  {
    if |s| > 0 {
      QuotedExpandsToItself(vars, s[1..]);
      var q := QuoteDollars(s);
      if s[0] == '$' {
        assert q[0] == '$' && q[1] == '$';
        assert q[2..] == QuoteDollars(s[1..]);
        assert Expand(vars, q) == Prepend("$", Ok(s[1..]));
        assert s == "$" + s[1..];
      } else {
        assert q[0] == s[0] && q[..1] == s[..1];
        assert q[1..] == QuoteDollars(s[1..]);
        assert Expand(vars, q) == Prepend(s[..1], Ok(s[1..]));
        assert s == s[..1] + s[1..];
      }
    }
  }

  /** A run of letters and digits followed by anything else. */
  lemma {:induction false} AlnumPrefixOf(name: string, rest: string)
    requires forall j :: 0 <= j < |name| ==> IsLetterOrDigit(name[j])
    requires |rest| == 0 || !IsLetterOrDigit(rest[0])
    ensures AlnumPrefix(name + rest) == |name|
    decreases |name|
  {
    if |name| > 0 {
      assert (name + rest)[1..] == name[1..] + rest;
      AlnumPrefixOf(name[1..], rest);
    } else {
      assert name + rest == rest;
    }
  }

  /** `$NAME`: the value when set, the text itself when not. */
  lemma PlainVariable(vars: map<string, string>, name: string, rest: string)
    requires |name| > 0
    requires forall j :: 0 <= j < |name| ==> IsLetterOrDigit(name[j])
    requires |rest| == 0 || !IsLetterOrDigit(rest[0])
    ensures Expand(vars, "$" + name + rest) ==
      Prepend(if name in vars then vars[name] else "$" + name, Expand(vars, rest))
  {
    var s := "$" + name + rest;
    assert s[1..] == name + rest;
    AlnumPrefixOf(name, rest);
    assert s[1] == name[0];
    assert s[1..1 + |name|] == name && s[..1 + |name|] == "$" + name && s[1 + |name|..] == rest;
  }

  /** `${NAME}`: the value when set, the text itself when not. */
  lemma BracedVariable(vars: map<string, string>, name: string, rest: string)
    requires forall j :: 0 <= j < |name| ==> IsLetterOrDigit(name[j])
    ensures Expand(vars, "${" + name + "}" + rest) ==
      Prepend(if name in vars then vars[name] else "${" + name + "}", Expand(vars, rest))
  {
    var s := "${" + name + "}" + rest;
    var n := |name|;
    assert s[2..] == name + ("}" + rest);
    AlnumPrefixOf(name, "}" + rest);
    assert s[2 + n] == '}';
    assert s[2..2 + n] == name && s[..n + 3] == "${" + name + "}" && s[n + 3..] == rest;
  }

  /** `${` without a closing brace keeps the rest as it is. */
  lemma UnclosedBrace(vars: map<string, string>, rest: string)
    requires '}' !in rest
    ensures Expand(vars, "${" + rest) == Ok("${" + rest)
  {
    var s := "${" + rest;
    assert forall j :: 2 <= j < |s| ==> s[j] == rest[j - 2];
  }

  /** A dollar at the very end throws. */
  lemma {:induction false} TrailingDollar(vars: map<string, string>, s: string)
    requires '$' !in s
    ensures Expand(vars, s + "$") == Throw(IndexOutOfRange)
    decreases |s|
  {
    if |s| > 0 {
      assert (s + "$")[1..] == s[1..] + "$";
      TrailingDollar(vars, s[1..]);
    }
  }

  // ---------------------------------------------------------------------
  // Completion

  /** The completer `CompleteUserVariable` returns, as written: the match is
      run over all variable names from the smallest, so it stops at the first
      name that does not start with the partial name. */
  function CompleteUserVariableAsWritten(s: AppSettings, variable: string): (r: Option<Matcher>)
    ensures r.Some? <==> StartsWith(variable, "$")
    ensures r.Some? ==> r.value.pos == 0 && r.value.items == Keys(s.variables)
  {
    if !StartsWith(variable, "$") then None
    else
      var hasBrace := StartsWith(variable, "${");
      var prefix := if hasBrace then "${" else "$";
      var suffix := if hasBrace then "}" else "";
      Some(Start(variable[|prefix|..], Keys(s.variables)).(prefix := Some(prefix), suffix := Some(suffix)))
  }

  /** The completer as evidently intended: the match starts at the partial
      name, as the enumerator requires of the names it is given. */
  function CompleteUserVariable(s: AppSettings, variable: string): (r: Option<Matcher>)
    ensures r.Some? <==> StartsWith(variable, "$")
    ensures r.Some? ==> r.value.pos == 0 && r.value.pos <= |r.value.items|
    ensures r.Some? ==>
      var partial := if StartsWith(variable, "${") then variable[2..] else variable[1..];
      && r.value.partial == partial
      && Ascending(Drain(r.value, _ => false))
      && forall x :: x in Drain(r.value, _ => false) <==> HasVariable(s, x) && |x| > 0 && partial <= x
  {
    if !StartsWith(variable, "$") then None
    else
      var hasBrace := StartsWith(variable, "${");
      var prefix := if hasBrace then "${" else "$";
      var suffix := if hasBrace then "}" else "";
      var partial := variable[|prefix|..];
      var m := OfDictionary(partial, s.variables);
      var d := m.(prefix := Some(prefix), suffix := Some(suffix));
      DictionaryMatches(partial, s.variables, _ => false);
      DrainIgnoresDecoration(m, d, _ => false);
      ToMapKeys(s.variables);
      Some(d)
  }

  /** The variables `A` and `B`. */
  const VariablesAB := AppSettings([("A", "1"), ("B", "2")])

  lemma VariablesABNames()
    ensures forall x :: HasVariable(VariablesAB, x) <==> x == "A" || x == "B"
  {
    assert ToMap(VariablesAB.variables) == map["A" := "1", "B" := "2"];
  }

  lemma DollarB()
    ensures StartsWith("$B", "$") && !StartsWith("$B", "${") && "$B"[1..] == "B"
  {
    assert "$B"[..1] == "$";
    assert "$B"[1] != '{';
  }

  /** With the variables `A` and `B`, completing `$B` finds nothing as
      written: the name `A` ends the match before `B` is reached. */
  lemma CompleteUserVariableAsWrittenMisses()
    ensures Drain(CompleteUserVariableAsWritten(VariablesAB, "$B").value, _ => false) == []
  {
    DollarB();
    var m := CompleteUserVariableAsWritten(VariablesAB, "$B").value;
    assert m.partial == "B" && m.items == ["A", "B"] && m.pos == 0;
    assert !("B" <= "A");
    assert !MoveNext(m, _ => false).0;
  }

  /** The same completion as intended finds `B`. */
  lemma CompleteUserVariableFinds()
    ensures Drain(CompleteUserVariable(VariablesAB, "$B").value, _ => false) == ["B"]
  {
    DollarB();
    VariablesABNames();
    var d := Drain(CompleteUserVariable(VariablesAB, "$B").value, _ => false);
    assert "B" <= "B";
    assert "B" in d;
    assert !("B" <= "A");
    AscendingSingle(d, "B");
  }

  /** An ascending sequence holding exactly one value is that value alone. */
  lemma AscendingSingle(d: seq<string>, v: string)
    requires Ascending(d) && v in d && forall x :: x in d ==> x == v
    ensures d == [v]
  {
    if |d| >= 2 {
      assert d[0] in d && d[1] in d;
      Irreflexive(v);
    }
  }

  /** `Complete` for `set` and `unset`: variable names, none past the first
      argument of `set`, and without the names already given to `unset`. The
      two commands are looked up by kind in the order of registration. */
  function Complete(s: AppSettings, d: Dispatcher, partialLine: string, lastWord: string): (r: Option<seq<string>>)
    ensures var st := Split(partialLine, {' '});
      var isSet := CommandOfKind(d, SetKind).Some? && st[0] == CommandOfKind(d, SetKind).value.name;
      var isUnset := !isSet && CommandOfKind(d, UnsetKind).Some? && st[0] == CommandOfKind(d, UnsetKind).value.name;
      && (r.None? <==> isSet && |st| > (if lastWord == "" then 0 else 1))
      && (r.Some? ==> Ascending(r.value))
      && (r.Some? ==> forall x :: x in r.value <==>
            HasVariable(s, x) && Yields(lastWord, x, y => isUnset && y in st[1..]))
  {
    var st := Split(partialLine, {' '});
    var cmd := st[0];
    var argc := |st|;
    var setCommand := CommandOfKind(d, SetKind);
    var unsetCommand := CommandOfKind(d, UnsetKind);
    ToMapKeys(s.variables);
    if setCommand.Some? && cmd == setCommand.value.name then
      if argc > (if lastWord == "" then 0 else 1) then None
      else
        DictionaryMatches(lastWord, s.variables, _ => false);
        Some(Drain(OfDictionary(lastWord, s.variables), _ => false))
    else
      var isUnset := unsetCommand.Some? && cmd == unsetCommand.value.name;
      var given := if isUnset then st[1..] else [];
      DictionaryMatches(lastWord, s.variables, y => y in given);
      Some(Drain(OfDictionary(lastWord, s.variables), y => y in given))
  }
}
