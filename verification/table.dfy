/** `TableRenderer`: rows are cached so that each column can grow to its
  widest cell, then written out with a header and a closing rule. The
  output is the sequence of lines written; bold and grey styling is
  dropped.
 */
module Table {
  import opened Wrappers
  import opened Columns
  import Strings

  /** No cell is padded beyond this many characters. */
  const MaxPad := 4000

  /** Cached rows are written out once there are this many. */
  const MaxCacheElements := 500

  /** `n` copies of `c`. */
  function Repeat(c: char, n: nat): (r: string)
    ensures |r| == n && forall i :: 0 <= i < n ==> r[i] == c
    decreases n
  {
    if n == 0 then "" else [c] + Repeat(c, n - 1)
  }

  /** One of `FormatString`'s fill loops: counts `fillNumber` down to
      `boundary`, appending one `fillchar` per step. */
  function FillDown(fillchar: char, fillNumber: int, boundary: int): (r: string)
    ensures r == Repeat(fillchar, if fillNumber > boundary then fillNumber - boundary else 0)
    decreases fillNumber - boundary
  {
    if fillNumber > boundary then [fillchar] + FillDown(fillchar, fillNumber - 1, boundary) else ""
  }

  /** C#'s `n / 2`, which truncates toward zero. */
  function Half(n: int): int {
    if n >= 0 then n / 2 else -((-n) / 2)
  }

  /** `FormatString`: the text (or "[NULL]") padded with `fillchar` to
      `len` characters, at most 4000, on the side the alignment says. */
  function FormatString(text: Option<string>, fillchar: char, len: int, alignment: Alignment): (r: string)
  {
    var target := if len > MaxPad then MaxPad else len;
    var t := text.GetOr(NullText);
    var fillNumber := target - |t|;
    var boundary := if alignment == Center then Half(fillNumber) else 0;
    var afterFirst := if fillNumber > boundary then boundary else fillNumber;
    (if alignment == Left then t else "") + FillDown(fillchar, fillNumber, boundary)
    + (if alignment != Left then t else "") + FillDown(fillchar, afterFirst, 0)
  }

  /** The length of a padded cell: the target, capped at 4000, but never
      less than the text, which is never cut. */
  lemma FormatLength(text: Option<string>, fillchar: char, len: int, alignment: Alignment)
    ensures var t := text.GetOr(NullText);
      var target := if len > MaxPad then MaxPad else len;
      |FormatString(text, fillchar, len, alignment)| == if target > |t| then target else |t|
  {
  }

  /** Where the text and the fill go: left alignment puts the fill after the
      text, centring puts the larger half of it before, and anything else
      puts it all before. */
  lemma FormatLayout(text: Option<string>, fillchar: char, len: int, alignment: Alignment)
    ensures var t := text.GetOr(NullText);
      var target := if len > MaxPad then MaxPad else len;
      var fill := if target > |t| then target - |t| else 0;
      var r := FormatString(text, fillchar, len, alignment);
      && (alignment == Left ==> r == t + Repeat(fillchar, fill))
      && (alignment == Right ==> r == Repeat(fillchar, fill) + t)
      && (alignment == Center ==> r == Repeat(fillchar, fill - fill / 2) + t + Repeat(fillchar, fill / 2))
  {
    var t := text.GetOr(NullText);
    var target := if len > MaxPad then MaxPad else len;
    var fillNumber := target - |t|;
    var r := FormatString(text, fillchar, len, alignment);
    match alignment
    case Left =>
      assert r == t + FillDown(fillchar, fillNumber, 0) + "" + FillDown(fillchar, if fillNumber > 0 then 0 else fillNumber, 0);
      FormatLeft(t, fillchar, fillNumber);
    case Right =>
      assert r == "" + FillDown(fillchar, fillNumber, 0) + t + FillDown(fillchar, if fillNumber > 0 then 0 else fillNumber, 0);
      FormatRight(t, fillchar, fillNumber);
    case Center =>
      var boundary := Half(fillNumber);
      assert r == "" + FillDown(fillchar, fillNumber, boundary) + t + FillDown(fillchar, if fillNumber > boundary then boundary else fillNumber, 0);
      FormatCenter(t, fillchar, fillNumber);
  }

  lemma FormatLeft(t: string, fillchar: char, fillNumber: int)
    ensures var afterFirst := if fillNumber > 0 then 0 else fillNumber;
      t + FillDown(fillchar, fillNumber, 0) + "" + FillDown(fillchar, afterFirst, 0)
      == t + Repeat(fillchar, if fillNumber > 0 then fillNumber else 0)
  {
    var afterFirst := if fillNumber > 0 then 0 else fillNumber;
    assert FillDown(fillchar, afterFirst, 0) == "";
  }

  lemma FormatRight(t: string, fillchar: char, fillNumber: int)
    ensures var afterFirst := if fillNumber > 0 then 0 else fillNumber;
      "" + FillDown(fillchar, fillNumber, 0) + t + FillDown(fillchar, afterFirst, 0)
      == Repeat(fillchar, if fillNumber > 0 then fillNumber else 0) + t
  {
    var afterFirst := if fillNumber > 0 then 0 else fillNumber;
    assert FillDown(fillchar, afterFirst, 0) == "";
  }

  lemma FormatCenter(t: string, fillchar: char, fillNumber: int)
    ensures var boundary := Half(fillNumber);
      var afterFirst := if fillNumber > boundary then boundary else fillNumber;
      var fill := if fillNumber > 0 then fillNumber else 0;
      "" + FillDown(fillchar, fillNumber, boundary) + t + FillDown(fillchar, afterFirst, 0)
      == Repeat(fillchar, fill - fill / 2) + t + Repeat(fillchar, fill / 2)
  {
    if fillNumber <= 0 {
      assert Half(fillNumber) >= fillNumber;
      assert FillDown(fillchar, fillNumber, Half(fillNumber)) == "";
      assert FillDown(fillchar, fillNumber, 0) == "";
    }
  }

  // ---------------------------------------------------------------------
  // Writing one row

  /** The lines of a cell not yet read. */
  function PendingOf(v: ColumnValue): nat {
    if v.TextValue? && v.pos < |v.lines| then |v.lines| - v.pos else 0
  }

  /** The unread lines of the shown columns of a row. */
  function Pending(columns: seq<ColumnDesign>, row: seq<ColumnValue>): nat
    requires |row| >= |columns|
    decreases |columns|
  {
    if |columns| == 0 then 0
    else (if columns[0].display then PendingOf(row[0]) else 0) + Pending(columns[1..], row[1..])
  }

  /** One pass of `WriteColumns`: every shown column writes its next line,
      padded to the column's width, and the pass says whether any of them
      has more. */
  datatype Pass = Pass(text: string, row: seq<ColumnValue>, more: bool)

  /** What one column writes in a pass: a shown column its next line,
      padded to its width, between a space and the separator; a hidden one
      nothing. */
  function CellText(c: ColumnDesign, colSeparator: string, v: ColumnValue): string {
    if c.display then " " + FormatString(Some(GetNextLine(v).0), ' ', c.width, c.alignment) + colSeparator else ""
  }

  /** The texts of the columns of a pass, column by column. */
  function Pieces(columns: seq<ColumnDesign>, colSeparator: string, row: seq<ColumnValue>): (r: seq<string>)
    requires |row| >= |columns|
    ensures |r| == |columns| && forall i :: 0 <= i < |columns| ==> r[i] == CellText(columns[i], colSeparator, row[i])
    decreases |columns|
  {
    if |columns| == 0 then [] else [CellText(columns[0], colSeparator, row[0])] + Pieces(columns[1..], colSeparator, row[1..])
  }

  /** A shown column still has a line after this pass. */
  predicate MoreAfter(c: ColumnDesign, v: ColumnValue) {
    c.display && HasNextLine(GetNextLine(v).1)
  }

  function WritePass(columns: seq<ColumnDesign>, colSeparator: string, row: seq<ColumnValue>): (r: Pass)
    requires |row| >= |columns|
    ensures |r.row| == |row|
    ensures r.text == Strings.Join("", Pieces(columns, colSeparator, row))
    ensures forall i :: 0 <= i < |columns| && columns[i].display ==> r.row[i] == GetNextLine(row[i]).1
    ensures forall i :: 0 <= i < |columns| && !columns[i].display ==> r.row[i] == row[i]
    ensures forall i :: |columns| <= i < |row| ==> r.row[i] == row[i]
    ensures r.more <==> exists i :: 0 <= i < |columns| && MoreAfter(columns[i], row[i])
    ensures Pending(columns, r.row) <= Pending(columns, row)
    ensures r.more ==> Pending(columns, r.row) < Pending(columns, row)
    decreases |columns|
  {
    if |columns| == 0 then Pass("", row, false)
    else
      var rest := WritePass(columns[1..], colSeparator, row[1..]);
      var text := CellText(columns[0], colSeparator, row[0]);
      JoinNothingCons(text, Pieces(columns[1..], colSeparator, row[1..]));
      MoreShift(columns, row);
      if !columns[0].display then
        Pass(text + rest.text, [row[0]] + rest.row, rest.more)
      else
        var cell := GetNextLine(row[0]).1;
        Pass(text + rest.text, [cell] + rest.row, HasNextLine(cell) || rest.more)
  }

  /** Joining with nothing between: the first piece, then the rest. */
  lemma JoinNothingCons(a: string, ps: seq<string>)
    ensures Strings.Join("", [a] + ps) == a + Strings.Join("", ps)
  {
    if ps != [] {
      assert ([a] + ps)[1..] == ps;
    }
  }

  /** A column with a line left is the first one or one of the rest. */
  lemma MoreShift(columns: seq<ColumnDesign>, row: seq<ColumnValue>)
    requires |columns| > 0 && |row| >= |columns|
    ensures (exists i :: 0 <= i < |columns| && MoreAfter(columns[i], row[i])) <==>
      MoreAfter(columns[0], row[0]) || exists i :: 0 <= i < |columns[1..]| && MoreAfter(columns[1..][i], row[1..][i])
  {
    if exists i :: 0 <= i < |columns| && MoreAfter(columns[i], row[i]) {
      var i :| 0 <= i < |columns| && MoreAfter(columns[i], row[i]);
      if i > 0 { assert columns[1..][i - 1] == columns[i] && row[1..][i - 1] == row[i]; }
    }
    if exists i :: 0 <= i < |columns[1..]| && MoreAfter(columns[1..][i], row[1..][i]) {
      var i :| 0 <= i < |columns[1..]| && MoreAfter(columns[1..][i], row[1..][i]);
      assert columns[1..][i] == columns[i + 1] && row[1..][i] == row[i + 1];
    }
  }

  /** The `do ... while (hasMoreLines)` loop for one row: at least one line,
      and more while a shown cell has lines left. */
  function RowLines(columns: seq<ColumnDesign>, colSeparator: string, row: seq<ColumnValue>): (r: (seq<string>, seq<ColumnValue>))
    requires |row| >= |columns|
    ensures |r.0| >= 1 && |r.1| == |row|
    ensures Pending(columns, r.1) == 0
    decreases Pending(columns, row)
  {
    var p := WritePass(columns, colSeparator, row);
    if p.more then
      var rest := RowLines(columns, colSeparator, p.row);
      ([p.text] + rest.0, rest.1)
    else
      PassLeavesNothing(columns, colSeparator, row);
      ([p.text], p.row)
  }

  /** A pass that reports no more lines has read every shown cell to its
      end. */
  lemma {:induction false} PassLeavesNothing(columns: seq<ColumnDesign>, colSeparator: string, row: seq<ColumnValue>)
    requires |row| >= |columns|
    requires !WritePass(columns, colSeparator, row).more
    ensures Pending(columns, WritePass(columns, colSeparator, row).row) == 0
    decreases |columns|
  {
    if |columns| > 0 {
      var rest := WritePass(columns[1..], colSeparator, row[1..]);
      PassLeavesNothing(columns[1..], colSeparator, row[1..]);
      var p := WritePass(columns, colSeparator, row);
      assert p.row[1..] == rest.row;
    }
  }

  /** A row whose shown cells were all read writes a single line. */
  lemma RowReadWritesOneLine(columns: seq<ColumnDesign>, colSeparator: string, row: seq<ColumnValue>)
    requires |row| >= |columns| && Pending(columns, row) == 0
    ensures |RowLines(columns, colSeparator, row).0| == 1
  {
  }

  // ---------------------------------------------------------------------
  // The renderer

  datatype Renderer = Renderer(
    columns: seq<ColumnDesign>,
    cache: seq<seq<ColumnValue>>,
    alreadyFlushed: bool,
    writtenRows: nat,
    separatorWidth: nat,
    colSeparator: string,
    enableHeader: bool,
    enableFooter: bool)

  /** The renderer and the lines an operation wrote. */
  datatype Written = Written(renderer: Renderer, out: seq<string>)

  /** `new TableRenderer(columns, output, separator, enableHeader, enableFooter)`. */
  function NewRenderer(columns: seq<ColumnDesign>, separator: string, enableHeader: bool, enableFooter: bool): (r: Renderer)
    ensures r.columns == columns && r.cache == [] && !r.alreadyFlushed && r.writtenRows == 0
    ensures r.colSeparator == " " + separator && r.separatorWidth == |separator|
  {
    Renderer(columns, [], false, 0, |separator|, " " + separator, enableHeader, enableFooter)
  }

  /** The `ColumnSeparator` setter. */
  function SetColumnSeparator(t: Renderer, separator: string): (r: Renderer)
    ensures r.colSeparator == " " + separator && r.separatorWidth == |separator|
    ensures r.(colSeparator := t.colSeparator, separatorWidth := t.separatorWidth) == t
  {
    t.(colSeparator := " " + separator, separatorWidth := |separator|)
  }

  /** What the renderer keeps true: every cached row has a cell for each
      column, the cache stays below its limit, and no column is narrower
      than its caption. */
  predicate Valid(t: Renderer) {
    && |t.cache| < MaxCacheElements
    && (forall k :: 0 <= k < |t.cache| ==> |t.cache[k]| >= |t.columns|)
    && (forall i :: 0 <= i < |t.columns| ==> Columns.Valid(t.columns[i]))
  }

  /** `WriteHorizontalLine`: a rule of dashes, one segment per shown column. */
  function HorizontalLine(columns: seq<ColumnDesign>, separatorWidth: nat): (r: string)
    decreases |columns|
  {
    if |columns| == 0 then ""
    else
      (if columns[0].display then FormatString(Some(""), '-', columns[0].width + separatorWidth + 1, Left) + "+" else "")
      + HorizontalLine(columns[1..], separatorWidth)
  }

  /** The captions, centred, one per shown column. */
  function CaptionLine(columns: seq<ColumnDesign>, colSeparator: string): (r: string)
    decreases |columns|
  {
    if |columns| == 0 then ""
    else
      (if columns[0].display then FormatString(Some(columns[0].caption), ' ', columns[0].width + 1, Center) + colSeparator else "")
      + CaptionLine(columns[1..], colSeparator)
  }

  /** `WriteTableHeader`: a rule, the captions, a rule. */
  function Header(t: Renderer): (r: seq<string>)
    ensures |r| == 3 && r[0] == r[2]
  {
    var rule := HorizontalLine(t.columns, t.separatorWidth);
    [rule, CaptionLine(t.columns, t.colSeparator), rule]
  }

  /** The lines of the cached rows, in order, and the cells as left after
      reading them. */
  function CacheLines(columns: seq<ColumnDesign>, colSeparator: string, cache: seq<seq<ColumnValue>>): (r: (seq<string>, seq<seq<ColumnValue>>))
    requires forall k :: 0 <= k < |cache| ==> |cache[k]| >= |columns|
    ensures |r.0| >= |cache| && |r.1| == |cache|
    ensures forall k :: 0 <= k < |cache| ==> |r.1[k]| == |cache[k]| && Pending(columns, r.1[k]) == 0
    decreases |cache|
  {
    if |cache| == 0 then ([], [])
    else
      var first := RowLines(columns, colSeparator, cache[0]);
      var rest := CacheLines(columns, colSeparator, cache[1..]);
      (first.0 + rest.0, [first.1] + rest.1)
  }

  /** `Flush`: the header once, on the first flush, if enabled; then every
      cached row. The cache is kept, with its cells read, and each row is
      counted as written. */
  function Flush(t: Renderer): (r: Written)
    requires forall k :: 0 <= k < |t.cache| ==> |t.cache[k]| >= |t.columns|
    ensures r.renderer.alreadyFlushed
    ensures r.renderer.writtenRows == t.writtenRows + |t.cache|
    ensures |r.renderer.cache| == |t.cache|
    ensures r.renderer.columns == t.columns
    ensures forall k :: 0 <= k < |t.cache| ==> |r.renderer.cache[k]| == |t.cache[k]|
    ensures |r.out| >= |t.cache| + (if !t.alreadyFlushed && t.enableHeader then 3 else 0)
    ensures !t.alreadyFlushed && t.enableHeader ==> r.out[..3] == Header(t)
  {
    var header := if !t.alreadyFlushed && t.enableHeader then Header(t) else [];
    var rows := CacheLines(t.columns, t.colSeparator, t.cache);
    Written(t.(alreadyFlushed := true, writtenRows := t.writtenRows + |t.cache|, cache := rows.1), header + rows.0)
  }

  /** `UpdateColumnWidths`: column `i` grows to cell `i`'s width; a row with
      too few cells throws once it runs out, with the columns before it
      already widened. */
  function UpdateColumnWidths(columns: seq<ColumnDesign>, row: seq<ColumnValue>): (r: Mutation<seq<ColumnDesign>>)
    ensures |r.state| == |columns|
    ensures r.Done? <==> |row| >= |columns|
    ensures r.Stopped? ==> r.error == IndexOutOfRange
    ensures forall i :: 0 <= i < |columns| && i < |row| ==> r.state[i] == SetWidth(columns[i], Width(row[i]))
    ensures forall i :: |row| <= i < |columns| ==> r.state[i] == columns[i]
    decreases |columns|
  {
    if |columns| == 0 then Done([])
    else if |row| == 0 then Stopped(columns, IndexOutOfRange)
    else
      var first := SetWidth(columns[0], Width(row[0]));
      match UpdateColumnWidths(columns[1..], row[1..])
      case Done(rest) => Done([first] + rest)
      case Stopped(rest, e) => Stopped([first] + rest, e)
  }

  /** `AddRow`: widen the columns, then cache the row; at 500 cached rows
      they are flushed and the cache cleared. */
  function AddRow(t: Renderer, row: seq<ColumnValue>): (r: Mutation<Written>)
    requires forall k :: 0 <= k < |t.cache| ==> |t.cache[k]| >= |t.columns|
    ensures |r.state.renderer.columns| == |t.columns|
    ensures r.Done? <==> |row| >= |t.columns|
    ensures r.Stopped? ==> r.state.out == [] && r.state.renderer.cache == t.cache && r.error == IndexOutOfRange
    ensures r.Done? ==> forall i :: 0 <= i < |t.columns| ==>
      r.state.renderer.columns[i].width >= t.columns[i].width && r.state.renderer.columns[i].width >= Width(row[i])
    ensures r.Done? && |t.cache| + 1 < MaxCacheElements ==>
      r.state.renderer.cache == t.cache + [row] && r.state.out == [] && r.state.renderer.writtenRows == t.writtenRows
    ensures r.Done? && |t.cache| + 1 >= MaxCacheElements ==>
      r.state.renderer.cache == [] && r.state.renderer.writtenRows == t.writtenRows + |t.cache| + 1
  {
    match UpdateColumnWidths(t.columns, row)
    case Stopped(columns, e) => Stopped(Written(t.(columns := columns), []), e)
    case Done(columns) =>
      var added := t.(columns := columns, cache := t.cache + [row]);
      if |added.cache| >= MaxCacheElements then
        var flushed := Flush(added);
        Done(Written(flushed.renderer.(cache := []), flushed.out))
      else Done(Written(added, []))
  }

  /** Adding rows keeps the renderer's invariant. */
  lemma AddRowKeepsValid(t: Renderer, row: seq<ColumnValue>)
    requires Valid(t)
    ensures Valid(AddRow(t, row).state.renderer)
  {
    var r := AddRow(t, row);
    var u := UpdateColumnWidths(t.columns, row);
    forall i | 0 <= i < |t.columns| ensures Columns.Valid(r.state.renderer.columns[i]) {
      assert r.state.renderer.columns[i] == u.state[i];
    }
  }

  /** `CloseTable`: flush, then the closing rule if any row was written and
      the footer is enabled. */
  function CloseTable(t: Renderer): (r: Written)
    requires forall k :: 0 <= k < |t.cache| ==> |t.cache[k]| >= |t.columns|
    ensures r.renderer.writtenRows == t.writtenRows + |t.cache|
    ensures var flushed := Flush(t);
      r.out == flushed.out + (if flushed.renderer.writtenRows > 0 && t.enableFooter then [HorizontalLine(t.columns, t.separatorWidth)] else [])
  {
    var flushed := Flush(t);
    var footer := if flushed.renderer.writtenRows > 0 && t.enableFooter then [HorizontalLine(t.columns, t.separatorWidth)] else [];
    Written(flushed.renderer, flushed.out + footer)
  }

  /** The header is written once: a second flush writes none, and counts
      the same cached rows again, each now as a single line since every
      shown cell was read by the first. */
  lemma FlushTwice(t: Renderer)
    requires forall k :: 0 <= k < |t.cache| ==> |t.cache[k]| >= |t.columns|
    ensures var once := Flush(t).renderer;
      var twice := Flush(once);
      && twice.renderer.writtenRows == t.writtenRows + 2 * |t.cache|
      && |twice.out| == |t.cache|
  {
    var once := Flush(t).renderer;
    CacheReadWritesOneLineEach(once.columns, once.colSeparator, once.cache);
  }

  lemma {:induction false} CacheReadWritesOneLineEach(columns: seq<ColumnDesign>, colSeparator: string, cache: seq<seq<ColumnValue>>)
    requires forall k :: 0 <= k < |cache| ==> |cache[k]| >= |columns| && Pending(columns, cache[k]) == 0
    ensures |CacheLines(columns, colSeparator, cache).0| == |cache|
    decreases |cache|
  {
    if |cache| > 0 {
      RowReadWritesOneLine(columns, colSeparator, cache[0]);
      CacheReadWritesOneLineEach(columns, colSeparator, cache[1..]);
    }
  }

  /** The footer rule closes the table exactly when some row was written
      and the footer is enabled. */
  lemma FooterWhenRowsWritten(t: Renderer)
    requires forall k :: 0 <= k < |t.cache| ==> |t.cache[k]| >= |t.columns|
    ensures |CloseTable(t).out| == |Flush(t).out| + (if t.writtenRows + |t.cache| > 0 && t.enableFooter then 1 else 0)
  {
  }
}
