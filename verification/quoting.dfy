/** The `StripQuotes` helper that `alias`, `set`, `set-property` and `echo`
  each carry a copy of: one pair of matching outer '"' or '\'' quotes is
  removed.
 */
module Quoting {
  import opened Wrappers

  predicate IsQuote(c: char) {
    c == '"' || c == '\''
  }

  /** Starts and ends with the same quote character; a lone quote character
      counts, as it does for `StartsWith` and `EndsWith`. */
  predicate QuoteBounded(v: string) {
    |v| >= 1 && IsQuote(v[0]) && v[|v| - 1] == v[0]
  }

  /** `StripQuotes`: `Substring(1, Length - 2)` on a quote-bounded value, which
      throws for a lone quote character (length -1). */
  function StripQuotes(v: string): (r: Result<string>)
    ensures r.Throw? <==> v == "\"" || v == "'"
    ensures r.Throw? ==> r.error == ArgumentOutOfRange
    ensures r.Ok? && QuoteBounded(v) ==> v == [v[0]] + r.value + [v[0]]
    ensures r.Ok? && !QuoteBounded(v) ==> r.value == v
  {
    if |v| >= 1 && v[0] == '"' && v[|v| - 1] == '"' then
      if |v| < 2 then Throw(ArgumentOutOfRange) else Ok(v[1..|v| - 1])
    else if |v| >= 1 && v[0] == '\'' && v[|v| - 1] == '\'' then
      if |v| < 2 then Throw(ArgumentOutOfRange) else Ok(v[1..|v| - 1])
    else Ok(v)
  }

  /** Quoting a value and stripping it again gives the value back, whatever
      quotes the value itself contains. */
  lemma StripQuoted(q: char, s: string)
    requires IsQuote(q)
    ensures StripQuotes([q] + s + [q]) == Ok(s)
  {
    var v := [q] + s + [q];
    assert v[1..|v| - 1] == s;
  }

  /** A value not bounded by one quote character passes through. */
  lemma StripUnquoted(v: string)
    requires !QuoteBounded(v)
    ensures StripQuotes(v) == Ok(v)
  {
  }
}
