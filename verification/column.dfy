/** `ColumnValue` and `ColumnDesign`: one cell of a rendered table, read a
  line at a time, and one column's caption, alignment and running width.
 */
module Columns {
  import opened Wrappers
  import opened Strings

  /** How a null cell is shown. */
  const NullText := "[NULL]"

  // ---------------------------------------------------------------------
  // ColumnValue

  /** A cell: null, or its text cut at '\n'; `pos` counts the lines read. */
  datatype ColumnValue =
    | NullValue(pos: nat)
    | TextValue(lines: seq<string>, pos: nat)

  /** The length of the longest line. */
  function MaxLength(lines: seq<string>): (r: nat)
    ensures forall i :: 0 <= i < |lines| ==> |lines[i]| <= r
    ensures |lines| > 0 ==> exists i :: 0 <= i < |lines| && |lines[i]| == r
    ensures |lines| == 0 ==> r == 0
    decreases |lines|
  {
    if |lines| == 0 then 0
    else
      var rest := MaxLength(lines[1..]);
      assert forall i :: 1 <= i < |lines| ==> lines[i] == lines[1..][i - 1];
      if |lines[0]| > rest then |lines[0]| else rest
  }

  /** `new ColumnValue(string)`: a null text gives a null cell. */
  function FromText(value: Option<string>): (r: ColumnValue)
    ensures r.pos == 0
    ensures r.NullValue? <==> value.None?
    ensures value.Some? ==> Join("\n", r.lines) == value.value
    ensures value.Some? ==> forall i :: 0 <= i < |r.lines| ==> '\n' !in r.lines[i]
  {
    match value
    case None => NullValue(0)
    case Some(s) =>
      SplitJoin(s, '\n');
      TextValue(Split(s, {'\n'}), 0)
  }

  /** `new ColumnValue(int)`: the number's decimal text. */
  function FromInt(value: int): (r: ColumnValue)
    ensures r == TextValue([IntToString(value)], 0)
    ensures Width(r) == |IntToString(value)|
  {
    NoNewlineInNumber(value);
    SplitNoSeparator(IntToString(value), '\n');
    FromText(Some(IntToString(value)))
  }

  lemma NoNewlineInNumber(value: int)
    ensures '\n' !in IntToString(value)
  {
    var s := NatToString(if value < 0 then -value else value);
    assert forall i :: 0 <= i < |s| ==> s[i] != '\n';
    if value < 0 {
      assert IntToString(value) == "-" + s;
      assert forall i :: 0 <= i < |"-" + s| ==> ("-" + s)[i] != '\n';
    }
  }

  /** `Width`: six for a null cell, else the longest line. */
  function Width(v: ColumnValue): (r: nat)
    ensures v.NullValue? ==> r == |NullText|
    ensures v.TextValue? ==> (forall i :: 0 <= i < |v.lines| ==> |v.lines[i]| <= r)
    ensures v.TextValue? && |v.lines| > 0 ==> exists i :: 0 <= i < |v.lines| && |v.lines[i]| == r
  {
    match v
    case NullValue(_) => |NullText|
    case TextValue(lines, _) => MaxLength(lines)
  }

  /** `HasNextLine`: a line of a non-null cell is still unread. */
  predicate HasNextLine(v: ColumnValue) {
    v.TextValue? && v.pos < |v.lines|
  }

  /** `GetNextLine`: the next line, or "" once all are read ("[NULL]" first
      for a null cell); it moves on every call. */
  function GetNextLine(v: ColumnValue): (r: (string, ColumnValue))
    ensures r.1.pos == v.pos + 1
    ensures v.TextValue? ==> r.1.TextValue? && r.1.lines == v.lines
    ensures v.NullValue? ==> r.1.NullValue?
  {
    match v
    case NullValue(pos) => (if pos == 0 then NullText else "", NullValue(pos + 1))
    case TextValue(lines, pos) => (if pos < |lines| then lines[pos] else "", TextValue(lines, pos + 1))
  }

  /** The text of the next `k` calls to `GetNextLine`. */
  function ReadLines(v: ColumnValue, k: nat): (r: seq<string>)
    ensures |r| == k
    decreases k
  {
    if k == 0 then [] else var (line, next) := GetNextLine(v); [line] + ReadLines(next, k - 1)
  }

  /** `k` more reads return the next `k` lines, in order, then empty lines,
      and move the cell on by `k`. */
  lemma {:induction false} ReadLinesText(lines: seq<string>, pos: nat, k: nat)
    ensures forall i :: 0 <= i < k ==> ReadLines(TextValue(lines, pos), k)[i] == (if pos + i < |lines| then lines[pos + i] else "")
    decreases k
  {
    if k > 0 {
      ReadLinesText(lines, pos + 1, k - 1);
      var r := ReadLines(TextValue(lines, pos), k);
      assert forall i :: 1 <= i < k ==> r[i] == ReadLines(TextValue(lines, pos + 1), k - 1)[i - 1];
    }
  }

  /** Round trip: reading every line of a fresh cell and joining them with
      '\n' gives back the text, after which no line is left. */
  lemma ReadAll(s: string)
    ensures var v := FromText(Some(s));
      && Join("\n", ReadLines(v, |v.lines|)) == s
      && !HasNextLine(AfterReads(v, |v.lines|))
  {
    var v := FromText(Some(s));
    ReadLinesText(v.lines, 0, |v.lines|);
    assert ReadLines(v, |v.lines|) == v.lines;
    AfterReadsPos(v, |v.lines|);
  }

  /** The cell after `k` calls to `GetNextLine`. */
  function AfterReads(v: ColumnValue, k: nat): (r: ColumnValue)
    decreases k
  {
    if k == 0 then v else AfterReads(GetNextLine(v).1, k - 1)
  }

  lemma {:induction false} AfterReadsPos(v: ColumnValue, k: nat)
    ensures AfterReads(v, k).pos == v.pos + k
    ensures v.TextValue? ==> AfterReads(v, k) == TextValue(v.lines, v.pos + k)
    ensures v.NullValue? ==> AfterReads(v, k) == NullValue(v.pos + k)
    decreases k
  {
    if k > 0 {
      AfterReadsPos(GetNextLine(v).1, k - 1);
    }
  }

  /** A null cell reads "[NULL]" once and then empty lines, and never has a
      next line. */
  lemma {:induction false} ReadNull(k: nat)
    ensures k > 0 ==> ReadLines(NullValue(0), k)[0] == NullText
    ensures forall i :: 1 <= i < k ==> ReadLines(NullValue(0), k)[i] == ""
    ensures !HasNextLine(AfterReads(NullValue(0), k))
  {
    AfterReadsPos(NullValue(0), k);
    if k > 0 {
      ReadNullLater(1, k - 1);
      var r := ReadLines(NullValue(0), k);
      assert forall i :: 1 <= i < k ==> r[i] == ReadLines(NullValue(1), k - 1)[i - 1];
    }
  }

  lemma {:induction false} ReadNullLater(pos: nat, k: nat)
    requires pos > 0
    ensures forall i :: 0 <= i < k ==> ReadLines(NullValue(pos), k)[i] == ""
    decreases k
  {
    if k > 0 {
      ReadNullLater(pos + 1, k - 1);
      var r := ReadLines(NullValue(pos), k);
      assert forall i :: 1 <= i < k ==> r[i] == ReadLines(NullValue(pos + 1), k - 1)[i - 1];
    }
  }

  /** A non-null cell's width bounds each of its lines and is reached by
      one of them. */
  lemma WidthOfText(s: string)
    ensures var v := FromText(Some(s));
      (forall i :: 0 <= i < |v.lines| ==> |v.lines[i]| <= Width(v))
      && exists i :: 0 <= i < |v.lines| && |v.lines[i]| == Width(v)
  {
    var v := FromText(Some(s));
    assert |v.lines| >= 1;
  }

  // ---------------------------------------------------------------------
  // ColumnDesign

  /** `ColumnAlignment`. */
  datatype Alignment = Left | Center | Right

  datatype ColumnDesign = ColumnDesign(
    caption: string,
    alignment: Alignment,
    initialWidth: nat,
    width: nat,
    display: bool,
    autoWrap: int)

  /** `new ColumnDesign(caption, alignment, autoWrap)`: as wide as the caption,
      and shown. */
  function NewColumn(caption: string, alignment: Alignment, autoWrap: int): (r: ColumnDesign)
    ensures r.caption == caption && r.alignment == alignment && r.autoWrap == autoWrap
    ensures r.width == |caption| && r.display
    ensures Valid(r)
  {
    ColumnDesign(caption, alignment, |caption|, |caption|, true, autoWrap)
  }

  /** `new ColumnDesign(caption)`: left aligned, no automatic wrap. */
  function DefaultColumn(caption: string): (r: ColumnDesign)
    ensures r.caption == caption && r.alignment == Left && r.autoWrap == -1
    ensures r.width == |caption| && r.display && Valid(r)
  {
    NewColumn(caption, Left, -1)
  }

  /** A column is never narrower than its caption. */
  predicate Valid(d: ColumnDesign) {
    d.initialWidth == |d.caption| && d.width >= d.initialWidth
  }

  /** The `Width` setter: the column only ever widens. */
  function SetWidth(d: ColumnDesign, value: int): (r: ColumnDesign)
    ensures r.width >= d.width && r.width >= value
    ensures r.width == d.width || r.width == value
    ensures r.(width := d.width) == d
    ensures Valid(d) ==> Valid(r)
  {
    if value > d.width then d.(width := value) else d
  }

  /** `ResetWidth`: back to the caption's width. */
  function ResetWidth(d: ColumnDesign): (r: ColumnDesign)
    ensures Valid(d) ==> r.width == |d.caption| && Valid(r)
    ensures r.(width := d.width) == d
  {
    d.(width := d.initialWidth)
  }

  /** The `Display` and `AutoWrap` setters. */
  function SetDisplay(d: ColumnDesign, display: bool): (r: ColumnDesign)
    ensures r.display == display && r.(display := d.display) == d
  {
    d.(display := display)
  }

  function SetAutoWrap(d: ColumnDesign, autoWrap: int): (r: ColumnDesign)
    ensures r.autoWrap == autoWrap && r.(autoWrap := d.autoWrap) == d
  {
    d.(autoWrap := autoWrap)
  }

  /** Setting widths one after another leaves the widest of them and the
      starting width. */
  lemma SetWidthTwice(d: ColumnDesign, a: int, b: int)
    ensures SetWidth(SetWidth(d, a), b).width == Max3(d.width, a, b)
  {
  }

  function Max3(x: int, y: int, z: int): (r: int)
    ensures r >= x && r >= y && r >= z && (r == x || r == y || r == z)
  {
    if x >= y && x >= z then x else if y >= z then y else z
  }
}
