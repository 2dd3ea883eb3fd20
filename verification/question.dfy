/** `Question` and `Answer`: a multiple-choice question, the checks on a
  chosen selection, and how a typed reply becomes an answer.
 */
module Questions {
  import opened Wrappers
  import opened Strings

  const MinInt32 := -0x8000_0000
  const MaxInt32 := 0x7FFF_FFFF

  /** The options are shown by their `ToString()` text. */
  datatype Question = Question(text: string, options: seq<string>, defaultOption: int, maxResponse: int)

  /** `new Question(text, options, defaultOption)`: one answer at most; the
      default is not checked here. */
  function NewQuestion(text: string, options: seq<string>, defaultOption: int): (r: Question)
    ensures r.text == text && r.options == options && r.defaultOption == defaultOption
    ensures SingleOption(r)
  {
    Question(text, options, defaultOption, 1)
  }

  /** The message of an `ArgumentException` built without one. */
  const DefaultArgumentMessage := "Value does not fall within the expected range."

  /** The `DefaultOption` setter: anything from 0 up to and including the
      number of options. */
  function SetDefaultOption(q: Question, value: int): (r: Result<Question>)
    ensures r.Ok? <==> 0 <= value <= |q.options|
    ensures r.Ok? ==> r.value == q.(defaultOption := value)
    ensures r.Throw? ==> r.error == ArgumentOutOfRange
  {
    if value < 0 || value > |q.options| then Throw(ArgumentOutOfRange) else Ok(q.(defaultOption := value))
  }

  /** The `MaxSelected` setter: only more than the number of options is
      refused. */
  function SetMaxSelected(q: Question, value: int): (r: Result<Question>)
    ensures r.Ok? <==> value <= |q.options|
    ensures r.Ok? ==> r.value == q.(maxResponse := value)
    ensures r.Throw? ==> r.error == Argument(DefaultArgumentMessage)
  {
    if value > |q.options| then Throw(Argument(DefaultArgumentMessage)) else Ok(q.(maxResponse := value))
  }

  /** `SingleOption`. */
  predicate SingleOption(q: Question) {
    q.maxResponse == 1
  }

  /** The `SingleOption` setter: one answer, or as many as there are
      options. */
  function SetSingleOption(q: Question, single: bool): (r: Question)
    ensures SingleOption(r) <==> single || |q.options| == 1
    ensures !single ==> r.maxResponse == |q.options|
    ensures r.(maxResponse := q.maxResponse) == q
  {
    q.(maxResponse := if single then 1 else |q.options|)
  }

  /** An answer: the chosen option indices (null for a reply that was not
      understood) and whether it is valid. */
  datatype Answer = Answer(question: Question, selected: Option<seq<int>>, valid: bool)

  /** What `Answer(int[])` accepts: one index at least, no more than may be
      chosen or than there are options, each naming an option, none twice. */
  predicate ValidSelection(q: Question, selected: seq<int>) {
    && 0 < |selected| <= q.maxResponse
    && |selected| <= |q.options|
    && (forall i :: 0 <= i < |selected| ==> 0 <= selected[i] < |q.options|)
    && (forall i, j :: 0 <= i < j < |selected| ==> selected[i] != selected[j])
  }

  /** The loop of `Answer(int[])` from index `i` on: an index out of range
      and an index seen before throw different exceptions, whichever comes
      first. */
  function CheckSelection(count: int, selected: seq<int>, i: nat): (r: Option<Exception>)
    requires i <= |selected| && Clean(count, selected, i)
    ensures r.None? <==>
      (forall a :: i <= a < |selected| ==> 0 <= selected[a] < count)
      && (forall a, b :: 0 <= a < b < |selected| ==> selected[a] != selected[b])
    ensures r == Some(ArgumentOutOfRange) <==>
      exists a :: i <= a < |selected| && Clean(count, selected, a) && !(0 <= selected[a] < count)
    ensures r == Some(Argument(DefaultArgumentMessage)) <==>
      exists a :: i <= a < |selected| && Clean(count, selected, a) && 0 <= selected[a] < count && selected[a] in selected[..a]
    ensures r.None? || r == Some(ArgumentOutOfRange) || r == Some(Argument(DefaultArgumentMessage))
    decreases |selected| - i
  {
    if i == |selected| then None
    else if selected[i] < 0 || selected[i] >= count then
      OnlyFirstBad(count, selected, i);
      Some(ArgumentOutOfRange)
    else if selected[i] in selected[..i] then
      assert exists a :: 0 <= a < i && selected[a] == selected[i];
      OnlyFirstBad(count, selected, i);
      Some(Argument(DefaultArgumentMessage))
    else
      CleanStep(count, selected, i);
      CheckSelection(count, selected, i + 1)
  }

  /** Every index before `i` names an option and repeats no earlier one. */
  predicate Clean(count: int, selected: seq<int>, i: nat)
    requires i <= |selected|
  {
    && (forall a :: 0 <= a < i ==> 0 <= selected[a] < count)
    && (forall a, b :: 0 <= a < b < i ==> selected[a] != selected[b])
  }

  /** A good index extends the clean prefix by one. */
  lemma CleanStep(count: int, selected: seq<int>, i: nat)
    requires i < |selected| && Clean(count, selected, i)
    requires 0 <= selected[i] < count && selected[i] !in selected[..i]
    ensures Clean(count, selected, i + 1)
  {
    forall a | 0 <= a < i ensures selected[a] != selected[i] {
      assert selected[a] == selected[..i][a];
    }
  }

  /** Past a bad index no prefix is clean, so the bad index at `i` is the
      only one the loop can stop at. */
  lemma OnlyFirstBad(count: int, selected: seq<int>, i: nat)
    requires i < |selected|
    requires !(0 <= selected[i] < count) || selected[i] in selected[..i]
    ensures forall a :: i < a <= |selected| ==> !Clean(count, selected, a)
  {
    if 0 <= selected[i] < count {
      var b :| 0 <= b < i && selected[..i][b] == selected[i];
      assert selected[b] == selected[i];
    }
  }

  /** `Answer(int[])`: a valid answer with exactly that selection, or the
      exception for the first thing wrong with it. */
  function MakeAnswer(q: Question, selected: seq<int>): (r: Result<Answer>)
    ensures r.Ok? <==> ValidSelection(q, selected)
    ensures r.Ok? ==> r.value == Answer(q, Some(selected), true)
    ensures |selected| == 0 || |selected| > q.maxResponse || |selected| > |q.options| ==> r == Throw(ArgumentOutOfRange)
  {
    if |selected| == 0 || |selected| > q.maxResponse then Throw(ArgumentOutOfRange)
    else if |selected| > |q.options| then Throw(ArgumentOutOfRange)
    else match CheckSelection(|q.options|, selected, 0)
      case Some(e) => Throw(e)
      case None => Ok(Answer(q, Some(selected), true))
  }

  /** `Answer(int)`. */
  function MakeAnswerOne(q: Question, selected: int): (r: Result<Answer>)
    ensures r.Ok? <==> 0 <= selected < |q.options| && q.maxResponse >= 1
    ensures r.Ok? ==> r.value.selected == Some([selected])
  {
    MakeAnswer(q, [selected])
  }

  // ---------------------------------------------------------------------
  // The accessors of Answer

  /** `SelectedOption`: the single index chosen, else -1. A null selection
      throws. */
  function SelectedOption(a: Answer): (r: Result<int>)
    ensures a.selected.None? <==> r == Throw(NullReference)
    ensures a.selected.Some? && |a.selected.value| == 1 ==> r == Ok(a.selected.value[0])
    ensures a.selected.Some? && |a.selected.value| != 1 ==> r == Ok(-1)
  {
    match a.selected
    case None => Throw(NullReference)
    case Some(s) => Ok(if |s| == 1 then s[0] else -1)
  }

  /** `SelectedOptions`: the selection itself (a copy, so a value here). */
  function SelectedOptions(a: Answer): (r: Result<seq<int>>)
    ensures a.selected.None? ==> r == Throw(NullReference)
    ensures a.selected.Some? ==> r == Ok(a.selected.value)
  {
    match a.selected
    case None => Throw(NullReference)
    case Some(s) => Ok(s)
  }

  /** The options at the given indices, in order; an index that names no
      option throws. */
  function OptionsAt(options: seq<string>, indices: seq<int>): (r: Result<seq<string>>)
    ensures r.Ok? <==> forall i :: 0 <= i < |indices| ==> 0 <= indices[i] < |options|
    ensures r.Ok? ==> |r.value| == |indices| && forall i :: 0 <= i < |indices| ==> r.value[i] == options[indices[i]]
    ensures r.Throw? ==> r.error == IndexOutOfRange
    decreases |indices|
  {
    if |indices| == 0 then Ok([])
    else if indices[0] < 0 || indices[0] >= |options| then Throw(IndexOutOfRange)
    else match OptionsAt(options, indices[1..])
      case Throw(e) => Throw(e)
      case Ok(rest) => Ok([options[indices[0]]] + rest)
  }

  /** `SelectedValues`: the chosen options, in the order chosen. */
  function SelectedValues(a: Answer): (r: Result<seq<string>>)
    ensures a.selected.None? ==> r == Throw(NullReference)
    ensures a.selected.Some? ==> r == OptionsAt(a.question.options, a.selected.value)
  {
    match a.selected
    case None => Throw(NullReference)
    case Some(s) => OptionsAt(a.question.options, s)
  }

  /** `SelectedValue`: null when not exactly one option was chosen, else
      that option. */
  function SelectedValue(a: Answer): (r: Result<Option<string>>)
    ensures a.selected.None? ==> r == Throw(NullReference)
    ensures a.selected.Some? && |a.selected.value| != 1 ==> r == Ok(None)
    ensures a.selected.Some? && |a.selected.value| == 1 ==>
      var i := a.selected.value[0];
      && (0 <= i < |a.question.options| ==> r == Ok(Some(a.question.options[i])))
      && (i == -1 ==> r == Ok(None))
      && (i != -1 && !(0 <= i < |a.question.options|) ==> r == Throw(IndexOutOfRange))
  {
    match SelectedOption(a)
    case Throw(e) => Throw(e)
    case Ok(i) =>
      if i == -1 then Ok(None)
      else if 0 <= i < |a.question.options| then Ok(Some(a.question.options[i]))
      else Throw(IndexOutOfRange)
  }

  /** Every accessor of an answer `Answer(int[])` accepted succeeds, and
      reads back exactly what was chosen. */
  lemma AcceptedAnswerReadsBack(q: Question, selected: seq<int>)
    requires MakeAnswer(q, selected).Ok?
    ensures var a := MakeAnswer(q, selected).value;
      && SelectedOptions(a) == Ok(selected)
      && SelectedValues(a).Ok?
      && |SelectedValues(a).value| == |selected|
      && (forall i :: 0 <= i < |selected| ==> SelectedValues(a).value[i] == q.options[selected[i]])
      && (|selected| == 1 <==> SelectedValue(a) == Ok(Some(q.options[selected[0]])))
  {
    var a := MakeAnswer(q, selected).value;
    if |selected| != 1 {
      assert SelectedValue(a) == Ok(None);
    }
  }

  // ---------------------------------------------------------------------
  // Reading a reply

  /** `Int32.TryParse` on trimmed text: an optional sign and decimal digits,
      within the 32-bit range. */
  function ParseInt32(s: string): (r: Option<int>)
    ensures r.Some? ==> MinInt32 <= r.value <= MaxInt32
  {
    var negative := |s| > 0 && s[0] == '-';
    var digits := if |s| > 0 && (s[0] == '-' || s[0] == '+') then s[1..] else s;
    if |digits| == 0 || !(forall i :: 0 <= i < |digits| ==> IsDigit(digits[i])) then None
    else
      var v := if negative then -DigitsValue(digits) else DigitsValue(digits);
      if MinInt32 <= v <= MaxInt32 then Some(v) else None
  }

  /** The decimal text of a count reads back as that count. */
  lemma ParseNatText(n: nat)
    requires n <= MaxInt32
    ensures ParseInt32(NatToString(n)) == Some(n)
  {
    NatToStringValue(n);
    var s := NatToString(n);
    assert IsDigit(s[0]);
  }

  /** A minus sign before the decimal text of a count up to 2^31 parses
      back to its negation. */
  lemma ParseNegativeText(n: nat)
    requires 1 <= n <= -MinInt32
    ensures ParseInt32("-" + NatToString(n)) == Some(-(n as int))
  {
    NatToStringValue(n);
    var s := "-" + NatToString(n);
    assert s[1..] == NatToString(n);
  }

  /** The reply "-2147483648" to a numbered question is read, as the source
      does it in unchecked 32-bit arithmetic, as the index 2147483647. */
  lemma LeastNumberWraps(q: Question)
    ensures ReadPart(q, "-" + NatToString(-MinInt32), true) == Some(MaxInt32)
  {
    var s := "-" + NatToString(-MinInt32);
    var d := NatToString(-MinInt32);
    assert IsDigit(d[|d| - 1]);
    assert s[|s| - 1] == d[|d| - 1];
    TrimKeeps(s);
    ParseNegativeText(-MinInt32);
  }

  /** `String.Compare(a, b, true) == 0`, with ASCII case folding. */
  predicate SameIgnoringCase(a: string, b: string) {
    ToLower(a) == ToLower(b)
  }

  /** The first option equal to `s` but for case. */
  function FindOption(options: seq<string>, s: string, j: nat): (r: Option<nat>)
    requires j <= |options|
    ensures r.Some? ==> j <= r.value < |options| && SameIgnoringCase(s, options[r.value])
    ensures r.Some? ==> forall k :: j <= k < r.value ==> !SameIgnoringCase(s, options[k])
    ensures r.None? ==> forall k :: j <= k < |options| ==> !SameIgnoringCase(s, options[k])
    decreases |options| - j
  {
    if j == |options| then None
    else if SameIgnoringCase(s, options[j]) then Some(j)
    else FindOption(options, s, j + 1)
  }

  /** One comma-separated part of a reply, trimmed: in vertical layout a
      number is taken as a 1-based option number; otherwise it must name an
      option. */
  function ReadPart(q: Question, part: string, vertical: bool): (r: Option<int>)
    ensures vertical && ParseInt32(Trim(part)).Some? ==>
      r.Some? && MinInt32 <= r.value <= MaxInt32 && Wraps32(r.value, ParseInt32(Trim(part)).value - 1)
    ensures !(vertical && ParseInt32(Trim(part)).Some?) ==>
      && (r.Some? <==> exists k :: 0 <= k < |q.options| && SameIgnoringCase(Trim(part), q.options[k]))
      && (r.Some? ==> 0 <= r.value < |q.options| && SameIgnoringCase(Trim(part), q.options[r.value]))
      && (r.Some? ==> forall k :: 0 <= k < r.value ==> !SameIgnoringCase(Trim(part), q.options[k]))
  {
    var s := Trim(part);
    var n := if vertical then ParseInt32(s) else None;
    if n.Some? then Some(Decrement32(n.value))
    else match FindOption(q.options, s, 0)
      case Some(j) => Some(j)
      case None => None
  }

  /** Two integers that agree modulo 2^32. */
  predicate Wraps32(a: int, b: int) {
    (a - b) % 0x1_0000_0000 == 0
  }

  /** `offset - 1` in unchecked 32-bit arithmetic: the least value wraps
      round to the greatest. */
  function Decrement32(v: int): (r: int)
    requires MinInt32 <= v <= MaxInt32
    ensures MinInt32 <= r <= MaxInt32 && Wraps32(r, v - 1)
    ensures v > MinInt32 ==> r == v - 1
  {
    if v == MinInt32 then MaxInt32 else v - 1
  }

  /** The parts read one after another; the first unreadable one fails all. */
  function ReadParts(q: Question, parts: seq<string>, vertical: bool): (r: Option<seq<int>>)
    ensures r.Some? ==> |r.value| == |parts|
    ensures r.Some? <==> forall i :: 0 <= i < |parts| ==> ReadPart(q, parts[i], vertical).Some?
    ensures r.Some? ==> forall i :: 0 <= i < |parts| ==> r.value[i] == ReadPart(q, parts[i], vertical).value
    decreases |parts|
  {
    if |parts| == 0 then Some([])
    else match ReadPart(q, parts[0], vertical)
      case None => None
      case Some(k) =>
        match ReadParts(q, parts[1..], vertical)
        case None =>
          TailUnread(q, parts, vertical);
          None
        case Some(rest) =>
          ConsRead(p => ReadPart(q, p, vertical), parts, k, rest);
          Some([k] + rest)
  }

  lemma TailUnread(q: Question, parts: seq<string>, vertical: bool)
    requires |parts| > 0
    requires !forall i :: 0 <= i < |parts[1..]| ==> ReadPart(q, parts[1..][i], vertical).Some?
    ensures !forall i :: 0 <= i < |parts| ==> ReadPart(q, parts[i], vertical).Some?
  {
    var i :| 0 <= i < |parts[1..]| && ReadPart(q, parts[1..][i], vertical).None?;
    assert parts[1..][i] == parts[i + 1];
  }

  /** The reading of a first part in front of the readings of the rest. */
  lemma ConsRead(read: string -> Option<int>, parts: seq<string>, k: int, rest: seq<int>)
    requires |parts| > 0 && read(parts[0]) == Some(k) && |rest| == |parts| - 1
    requires forall i :: 0 <= i < |rest| ==> read(parts[1..][i]).Some? && rest[i] == read(parts[1..][i]).value
    ensures forall i :: 0 <= i < |parts| ==> read(parts[i]).Some? && ([k] + rest)[i] == read(parts[i]).value
  {
    forall i | 0 <= i < |parts| ensures read(parts[i]).Some? && ([k] + rest)[i] == read(parts[i]).value {
      if i > 0 { assert parts[i] == parts[1..][i - 1]; }
    }
  }

  /** The answer for a reply that was not understood. */
  function Invalid(q: Question): Answer {
    Answer(q, None, false)
  }

  /** The reply half of `Ask`, as the source has it: a part read as an
      option number is taken without checking that the option exists or
      was not named already. */
  function ReadReplyAsWritten(q: Question, input: Option<string>, vertical: bool): (r: Answer)
    ensures r.question == q
    ensures r.valid <==> r.selected.Some?
    ensures r.valid <==>
      && input.Some? && input.value != ""
      && |Split(input.value, {','})| <= |q.options| && |Split(input.value, {','})| <= q.maxResponse
      && forall i :: 0 <= i < |Split(input.value, {','})| ==> ReadPart(q, Split(input.value, {','})[i], vertical).Some?
    ensures r.valid ==>
      var parts := Split(input.value, {','});
      && |r.selected.value| == |parts|
      && forall i :: 0 <= i < |parts| ==> r.selected.value[i] == ReadPart(q, parts[i], vertical).value
  {
    if input.None? || input.value == "" then Invalid(q)
    else
      var parts := Split(input.value, {','});
      if |parts| > |q.options| || |parts| > q.maxResponse then Invalid(q)
      else match ReadParts(q, parts, vertical)
        case None => Invalid(q)
        case Some(selected) => Answer(q, Some(selected), true)
  }

  /** A reply of "0" to a vertical question is a valid answer whose only
      index names no option, so reading its value throws. */
  lemma {:induction false} ReplyZeroAccepted(q: Question)
    requires q.maxResponse >= 1 && |q.options| >= 1
    ensures var a := ReadReplyAsWritten(q, Some("0"), true);
      a.valid && a.selected == Some([-1]) && SelectedValues(a) == Throw(IndexOutOfRange)
  {
    SplitNoSeparator("0", ',');
    assert Trim("0") == "0" by { TrimKeeps("0"); }
    assert ParseInt32("0") == Some(0) by { ParseNatText(0); }
    assert Decrement32(0) == -1;
    assert ReadPart(q, "0", true) == Some(-1);
    var parts := ["0"];
    assert parts[0] == "0" && parts[1..] == [];
    assert ReadPart(q, parts[0], true) == Some(-1);
    assert ReadParts(q, parts[1..], true) == Some([]);
    assert [-1] + [] == [-1];
    assert ReadParts(q, parts, true) == Some([-1] + []);
    assert OptionsAt(q.options, [-1]) == Throw(IndexOutOfRange);
  }

  /** Text with no white space at either end is left alone by `Trim`. */
  lemma TrimKeeps(s: string)
    requires |s| > 0 && !IsWhiteSpace(s[0]) && !IsWhiteSpace(s[|s| - 1])
    ensures Trim(s) == s
  {
    assert TrimStart(s) == s;
  }

  /** The reply half of `Ask` with the numbers checked as `Answer(int[])`
      checks a selection: a reply is valid only when its indices name
      distinct options. */
  function ReadReply(q: Question, input: Option<string>, vertical: bool): (r: Answer)
    ensures r.valid <==> r.selected.Some?
    ensures r.valid ==> ValidSelection(q, r.selected.value)
    ensures r.valid ==> ReadReplyAsWritten(q, input, vertical) == r
  {
    var a := ReadReplyAsWritten(q, input, vertical);
    if a.valid && MakeAnswer(q, a.selected.value).Ok? then a else Invalid(q)
  }

  /** A reply the as-written reading accepts with indices that name
      distinct options is read the same by the corrected one. */
  lemma ReadReplyAgrees(q: Question, input: Option<string>, vertical: bool)
    ensures var a := ReadReplyAsWritten(q, input, vertical);
      a.valid && ValidSelection(q, a.selected.value) ==> ReadReply(q, input, vertical) == a
  {
  }

  /** Round trip: the 1-based numbers of a valid selection, joined with
      commas, are read back by a vertical question as that selection. */
  lemma NumbersReadBack(q: Question, selected: seq<int>)
    requires ValidSelection(q, selected)
    requires |q.options| <= MaxInt32
    ensures ReadReply(q, Some(Join(",", Numbers(selected))), true) == Answer(q, Some(selected), true)
  {
    var parts := Numbers(selected);
    NumbersHaveNoComma(selected);
    JoinSplit(parts, ',');
    JoinNotEmpty(parts);
    ReadNumbers(q, selected);
  }

  lemma NumbersHaveNoComma(selected: seq<int>)
    requires forall i :: 0 <= i < |selected| ==> selected[i] >= 0
    ensures forall i :: 0 <= i < |selected| ==> ',' !in Numbers(selected)[i]
  {
    forall i | 0 <= i < |selected| ensures ',' !in Numbers(selected)[i] {
      var p := NatToString(selected[i] + 1);
      assert forall k :: 0 <= k < |p| ==> IsDigit(p[k]);
    }
  }

  lemma JoinNotEmpty(parts: seq<string>)
    requires |parts| >= 1 && |parts[0]| >= 1
    ensures Join(",", parts) != ""
  {
  }

  lemma {:induction false} ReadNumbers(q: Question, selected: seq<int>)
    requires forall i :: 0 <= i < |selected| ==> 0 <= selected[i] < MaxInt32
    ensures ReadParts(q, Numbers(selected), true) == Some(selected)
  {
    var parts := Numbers(selected);
    assert forall i :: 0 <= i < |parts| ==> ReadPart(q, parts[i], true) == Some(selected[i]) by {
      forall i | 0 <= i < |parts| ensures ReadPart(q, parts[i], true) == Some(selected[i]) {
        var n := selected[i];
        assert parts[i] == NatToString(n + 1);
        NumberPart(q, n);
      }
    }
    EachPartRead(q, parts, true, selected);
  }

  /** Parts each read as an index are read together as those indices. */
  lemma EachPartRead(q: Question, parts: seq<string>, vertical: bool, selected: seq<int>)
    requires |parts| == |selected|
    requires forall i :: 0 <= i < |parts| ==> ReadPart(q, parts[i], vertical) == Some(selected[i])
    ensures ReadParts(q, parts, vertical) == Some(selected)
  {
    assert ReadParts(q, parts, vertical).value == selected;
  }

  /** The 1-based numbers of the chosen options. */
  function Numbers(selected: seq<int>): (r: seq<string>)
    requires forall i :: 0 <= i < |selected| ==> selected[i] >= 0
    ensures |r| == |selected|
    ensures forall i :: 0 <= i < |selected| ==> r[i] == NatToString(selected[i] + 1)
    decreases |selected|
  {
    if |selected| == 0 then [] else [NatToString(selected[0] + 1)] + Numbers(selected[1..])
  }

  lemma {:induction false} NumberPart(q: Question, index: nat)
    requires index < MaxInt32
    ensures ReadPart(q, NatToString(index + 1), true) == Some(index)
  {
    var s := NatToString(index + 1);
    assert IsDigit(s[0]) && IsDigit(s[|s| - 1]);
    TrimKeeps(s);
    ParseNatText(index + 1);
  }

  // ---------------------------------------------------------------------
  // The printed question

  /** The prompt `Ask` writes before reading the reply, as the source has
      it: laid out on one line, it repeats the first option in place of
      each one. */
  function PromptAsWritten(q: Question, vertical: bool, newline: string): (r: string)
    ensures !vertical && q.defaultOption == -1 && |q.options| > 0 ==>
      r == q.text + " [" + Join(", ", Copies(q.options[0], |q.options|)) + "] : " + newline
  {
    var r := q.text + (if vertical then newline else " [") + OptionList(q, vertical, newline, 0, true)
      + (if vertical then "" else "] : " + newline);
    if !vertical && q.defaultOption == -1 && |q.options| > 0 then
      PromptRepeatsOption(q, newline, 0);
      r
    else r
  }

  /** `n` copies of `x`. */
  function Copies(x: string, n: nat): (r: seq<string>)
    ensures |r| == n && forall i :: 0 <= i < n ==> r[i] == x
  {
    if n == 0 then [] else [x] + Copies(x, n - 1)
  }

  /** The prompt with each option in its place: on one line and with no
      default to star, the options in order, separated by ", ". */
  function Prompt(q: Question, vertical: bool, newline: string): (r: string)
    ensures !vertical && q.defaultOption == -1 ==> r == q.text + " [" + Join(", ", q.options) + "] : " + newline
  {
    var r := q.text + (if vertical then newline else " [") + OptionList(q, vertical, newline, 0, false)
      + (if vertical then "" else "] : " + newline);
    if !vertical && q.defaultOption == -1 then
      PromptListsOptions(q, newline, 0);
      assert q.options[0..] == q.options;
      r
    else r
  }

  /** The options from `i` on: numbered lines with a check box for the
      default when a single answer is expected, or a comma-separated list
      with the default starred. */
  function OptionList(q: Question, vertical: bool, newline: string, i: nat, firstOnly: bool): (r: string)
    requires i <= |q.options|
    decreases |q.options| - i
  {
    if i == |q.options| then ""
    else
      var marked := q.defaultOption != -1 && q.maxResponse == 1;
      var item :=
        if vertical then
          "  " + IntToString(i + 1) + ". " + (if marked then "[" + (if q.defaultOption == i then "x" else " ") + "] " else "")
          + q.options[i] + newline
        else
          (if marked && q.defaultOption == i then "*" else "")
          + (if firstOnly then q.options[0] else q.options[i])
          + (if i < |q.options| - 1 then ", " else "");
      item + OptionList(q, vertical, newline, i + 1, firstOnly)
  }

  /** With two options and no default, the one-line prompt as written lists
      the first option twice and never the second: "Go?" with "yes" and
      "no" prompts "Go? [yes, yes] : " instead of "Go? [yes, no] : ". */
  lemma PromptRepeatsFirst(yes: string, no: string)
    ensures PromptAsWritten(Question("Go?", [yes, no], -1, 1), false, "\n") == "Go? [" + yes + ", " + yes + "] : \n"
    ensures Prompt(Question("Go?", [yes, no], -1, 1), false, "\n") == "Go? [" + yes + ", " + no + "] : \n"
  {
    assert Copies(yes, 2) == [yes, yes];
    assert [yes, yes][1..] == [yes] && [yes, no][1..] == [no];
    assert Join(", ", [yes, yes]) == yes + ", " + yes;
    assert Join(", ", [yes, no]) == yes + ", " + no;
    assert "Go?" + " [" == "Go? [" && "] : " + "\n" == "] : \n";
    assert "Go? [" + yes + ", " + yes + "] : \n" == "Go? [" + (yes + ", " + yes) + "] : \n";
    assert "Go? [" + yes + ", " + no + "] : \n" == "Go? [" + (yes + ", " + no) + "] : \n";
  }

  /** The corrected one-line prompt lists every option, in order, separated
      by ", ", when there is no default to star. */
  lemma {:induction false} PromptListsOptions(q: Question, newline: string, i: nat)
    requires i <= |q.options| && q.defaultOption == -1
    ensures OptionList(q, false, newline, i, false) == Join(", ", q.options[i..])
    decreases |q.options| - i
  {
    if i < |q.options| {
      PromptListsOptions(q, newline, i + 1);
      assert q.options[i..][1..] == q.options[i + 1..];
      if i + 1 == |q.options| {
        assert q.options[i..] == [q.options[i]];
      }
    }
  }

  /** The one-line prompt as written repeats the first option once for each
      option, when there is no default to star. */
  lemma {:induction false} PromptRepeatsOption(q: Question, newline: string, i: nat)
    requires i <= |q.options| && q.defaultOption == -1 && |q.options| > 0
    ensures OptionList(q, false, newline, i, true) == Join(", ", Copies(q.options[0], |q.options| - i))
    decreases |q.options| - i
  {
    if i < |q.options| {
      PromptRepeatsOption(q, newline, i + 1);
      var copies := Copies(q.options[0], |q.options| - i);
      assert copies[1..] == Copies(q.options[0], |q.options| - (i + 1));
    }
  }
}
