/** SELECT in box mode: a first pass over the rows finds the width of every column, a second one
    prints them (execute_select with PRINT_BOX). */
module Box {
  import opened Layout
  import opened Tree
  import opened TreeContents
  import opened TreeStanding
  import opened Btree
  import opened Rows
  import opened Select
  import Parser

  /** What is printed for one column of a row: a number in decimal, a text up to its end. */
  function CellText(f: Field, row: Row): seq<Byte>
    requires f.size == SizeOf(f.kind) && f.offset + f.size <= |row|
  {
    match FieldValue(f, row)
    case Num(n) => Parser.Decimal(n)
    case Text(s) => s
  }

  /** printf with %-*s pads on the right; longer texts are printed in full. */
  function Padded(text: seq<Byte>, width: nat): (r: seq<Byte>)
    ensures |r| == (if |text| <= width then width else |text|) && r[..|text|] == text
    ensures forall i :: |text| <= i < |r| ==> r[i] == 32
  {
    text + seq(if |text| < width then width - |text| else 0, _ => Parser.SPACE)
  }

  /** A printed column shows a number: its digits, without leading zeros, and then only spaces. */
  ghost predicate ShowsNumber(text: seq<Byte>, n: Key) {
    && Parser.Atoi(text) == n
    && exists len: nat {:trigger text[..len]} ::
         && 0 < len <= |text| && (len > 1 ==> text[0] != 48)
         && (forall i :: 0 <= i < len ==> 48 <= text[i] <= 57) && (forall i :: len <= i < |text| ==> text[i] == 32)
  }

  /** A printed column shows a text: its bytes, and then only spaces. */
  ghost predicate ShowsText(text: seq<Byte>, s: seq<Byte>) {
    |s| <= |text| && text[..|s|] == s && forall i :: |s| <= i < |text| ==> text[i] == 32
  }

  ghost predicate Shows(text: seq<Byte>, v: Value) {
    match v
    case Num(n) => ShowsNumber(text, n)
    case Text(s) => ShowsText(text, s)
  }

  /** Spaces behind a printed number do not change what is read. */
  lemma {:induction false} DigitsStop(d: seq<Byte>, rest: seq<Byte>, acc: nat)
    requires Parser.AllDigits(d) && (rest != [] ==> rest[0] == 32)
    ensures Parser.Digits(d + rest, acc) == Parser.Digits(d, acc)
    decreases |d|
  {
    if d == [] {
      assert d + rest == rest;
    } else {
      assert (d + rest)[1..] == d[1..] + rest && (d + rest)[0] == d[0];
      assert Parser.AllDigits(d[1..]) by {
        forall i | 0 <= i < |d[1..]| ensures 48 <= d[1..][i] <= 57 { assert d[1..][i] == d[i + 1]; }
      }
      DigitsStop(d[1..], rest, 10 * acc + (d[0] - 48));
    }
  }

  lemma {:induction false} DecimalHead(n: nat)
    ensures |Parser.Decimal(n)| > 0 && (|Parser.Decimal(n)| > 1 ==> Parser.Decimal(n)[0] != 48) && (n > 0 ==> Parser.Decimal(n)[0] != 48)
  {
    if n >= 10 { DecimalHead(n / 10); }
  }

  lemma PaddedNumber(n: Key, width: nat)
    ensures ShowsNumber(Padded(Parser.Decimal(n), width), n)
  {
    var d := Parser.Decimal(n);
    var text := Padded(d, width);
    Parser.DecimalDigits(n);
    DecimalHead(n);
    var rest := text[|d|..];
    assert text == d + rest && text[0] == d[0];
    DigitsStop(d, rest, 0);
    assert Parser.SkipSpace(text, 0) == 0 && text[0..] == text;
    assert text[..|d|] == d;
    forall i | 0 <= i < |d| ensures 48 <= text[i] <= 57 { assert text[i] == d[i]; }
  }

  /** What is measured and printed of a column is its value, whatever the width. */
  lemma CellTextShows(f: Field, row: Row, width: nat)
    requires f.size == SizeOf(f.kind) && f.offset + f.size <= |row|
    ensures Shows(Padded(CellText(f, row), width), FieldValue(f, row)) && Shows(CellText(f, row), FieldValue(f, row))
    ensures FieldValue(f, row).Text? ==> CellText(f, row) == FieldValue(f, row).s
    ensures FieldValue(f, row).Num? ==> forall i :: 0 <= i < |CellText(f, row)| ==> 48 <= CellText(f, row)[i] <= 57
  {
    match FieldValue(f, row)
    case Num(n) =>
      PaddedNumber(n, width);
      PaddedNumber(n, 0);
      Parser.DecimalDigits(n);
      assert Padded(Parser.Decimal(n), 0) == Parser.Decimal(n);
    case Text(s) =>
  }

  ghost predicate AllFit(fields: seq<Field>, cs: seq<Cell>) {
    forall k {:trigger cs[k]} :: 0 <= k < |cs| ==> FieldsFit(fields, |cs[k].row|)
  }

  /** widths[i] is the largest of the lengths of column i's name and of its texts in these rows. */
  ghost predicate Widths(fields: seq<Field>, cs: seq<Cell>, widths: seq<nat>)
    requires AllFit(fields, cs)
  {
    && |widths| == |fields|
    && forall i :: 0 <= i < |fields| ==>
         && |fields[i].name| <= widths[i]
         && (forall k {:trigger cs[k]} :: 0 <= k < |cs| ==> |CellText(fields[i], cs[k].row)| <= widths[i])
         && (widths[i] == |fields[i].name| || exists k {:trigger cs[k]} :: 0 <= k < |cs| && widths[i] == |CellText(fields[i], cs[k].row)|)
  }

  /** One row's part in the first pass. */
  method Widen(fields: seq<Field>, row: Row, widths: array<nat>)
    requires widths.Length == |fields| && FieldsFit(fields, |row|)
    modifies widths
    ensures forall i :: 0 <= i < |fields| ==>
              widths[i] == if |CellText(fields[i], row)| > old(widths[i]) then |CellText(fields[i], row)| else old(widths[i])
  {
    var i := 0;
    while i < |fields|
      invariant i <= |fields|
      invariant forall k :: 0 <= k < |fields| ==>
                  widths[k] == if k < i && |CellText(fields[k], row)| > old(widths[k]) then |CellText(fields[k], row)| else old(widths[k])
    {
      var v := DeserializeField(fields[i], row);
      var text := match v case Num(n) => Parser.Decimal(n) case Text(s) => s;
      var len := |text|;
      if len > widths[i] { widths[i] := len; }
      i := i + 1;
    }
  }

  lemma WidthsStep(fields: seq<Field>, cs: seq<Cell>, c: Cell, was: seq<nat>, now: seq<nat>)
    requires AllFit(fields, cs) && FieldsFit(fields, |c.row|) && Widths(fields, cs, was) && |was| == |now| == |fields|
    requires forall i :: 0 <= i < |fields| ==>
               now[i] == if |CellText(fields[i], c.row)| > was[i] then |CellText(fields[i], c.row)| else was[i]
    ensures AllFit(fields, cs + [c]) && Widths(fields, cs + [c], now)
  {
    var all := cs + [c];
    assert forall k :: 0 <= k < |cs| ==> all[k] == cs[k];
    assert all[|cs|] == c;
    hide CellText;
  }

  /** The first pass: the same cursor movements as the second, widths instead of output. */
  method MeasureRows(store: PageStore, t: Table, w: Where, fields: seq<Field>, page0: nat, cell0: nat,
                     ghost g: View, ghost j0: nat) returns (widths: array<nat>, ghost rows: seq<Cell>)
    requires Standing(store.pages, g, t) && Stands(store.pages, g, j0, page0) && cell0 <= |store.pages[page0].cells|
    requires AllFit(fields, Contents(store.pages, g.order))
    ensures Selected(Contents(store.pages, g.order), w, Position(store.pages, g.order, j0, cell0), rows)
    ensures fresh(widths) && AllFit(fields, rows) && Widths(fields, rows, widths[..])
  {
    var page: nat, cell: nat := page0, cell0;
    ghost var j, start := j0, Position(store.pages, g.order, j0, cell0);
    rows := [];
    ScanBegins(store.pages, g, w, j0, page0, cell0);
    widths := new nat[|fields|](i requires 0 <= i < |fields| => |fields[i].name|);
    assert Widths(fields, rows, widths[..]);
    hide Contents, Scanning, CellText, Widths, Standing, Selected;
    while true
      invariant Scanning(store.pages, g, w, start, j, page, cell, rows) && j < |g.order|
      invariant fresh(widths) && widths.Length == |fields| && AllFit(fields, rows) && Widths(fields, rows, widths[..])
      decreases |g.order| - j, Left(store.pages, page, cell)
    {
      var turn;
      turn, page, cell, j := ScanTurn(store, t, w, page, cell, g, start, j, rows);
      match turn
      case Finished => break;
      case Printed(c) =>
        ghost var was := widths[..];
        Widen(fields, c.row, widths);
        WidthsStep(fields, rows, c, was, widths[..]);
        rows := rows + [c];
      case _ =>
    }
  }

  /** Box mode: the widths of the columns, and the padded texts of every printed row. The rows are those of
      the plain mode, be the table in order or not. */
  method SelectBox(store: PageStore, t: Table, w: Where, fields: seq<Field>, ghost g: View)
    returns (widths: seq<nat>, lines: seq<seq<seq<Byte>>>, ghost rows: seq<Cell>)
    requires Standing(store.pages, g, t) && AllFit(fields, Contents(store.pages, g.order))
    ensures ScanResult(store.pages, g, t, w, rows)
    ensures Inv(store.pages, g, t, 0) ==> rows == Filter(Contents(store.pages, g.order), w)
    ensures AllFit(fields, rows) && Widths(fields, rows, widths) && |lines| == |rows|
    ensures forall k :: 0 <= k < |lines| ==> Line(fields, rows[k].row, widths, lines[k])
  {
    hide Inv, Contents, Filter, CellText, Line, Standing, Starts, Selected;
    var page, cell;
    ghost var j, path;
    page, cell, j, path := ScanStart(store, t, w, g);
    var measured;
    measured, rows := MeasureRows(store, t, w, fields, page, cell, g, j);
    var printed;
    ghost var visited;
    printed, visited := ScanRows(store, t, w, page, cell, g, j);
    SelectedOnce(Contents(store.pages, g.order), w, Position(store.pages, g.order, j, cell), rows, printed);
    widths := measured[..];
    lines := PrintRows(fields, printed, widths);
    if Inv(store.pages, g, t, 0) { TreeResult(store.pages, g, t, w, j, cell, rows); }
  }

  method PrintRows(fields: seq<Field>, rows: seq<Cell>, widths: seq<nat>) returns (lines: seq<seq<seq<Byte>>>)
    requires AllFit(fields, rows) && Widths(fields, rows, widths)
    ensures |lines| == |rows| && forall k :: 0 <= k < |lines| ==> Line(fields, rows[k].row, widths, lines[k])
  {
    hide Line, CellText;
    lines := [];
    while |lines| < |rows|
      invariant |lines| <= |rows|
      invariant forall k :: 0 <= k < |lines| ==> Line(fields, rows[k].row, widths, lines[k])
    {
      var line := PrintRow(fields, rows[|lines|].row, widths);
      lines := lines + [line];
    }
  }

  /** A printed row: every column shows its field, and is exactly as wide as the column. */
  ghost predicate Line(fields: seq<Field>, row: Row, widths: seq<nat>, line: seq<seq<Byte>>) {
    && |line| == |widths| == |fields| && FieldsFit(fields, |row|)
    && forall i :: 0 <= i < |fields| ==> |line[i]| == widths[i] && Shows(line[i], FieldValue(fields[i], row))
  }

  method PrintRow(fields: seq<Field>, row: Row, widths: seq<nat>) returns (line: seq<seq<Byte>>)
    requires |widths| == |fields| && FieldsFit(fields, |row|)
    requires forall i :: 0 <= i < |fields| ==> |CellText(fields[i], row)| <= widths[i]
    ensures Line(fields, row, widths, line)
  {
    hide Shows, FieldValue, Parser.Decimal;
    line := [];
    while |line| < |fields|
      invariant |line| <= |fields|
      invariant forall i :: 0 <= i < |line| ==> |line[i]| == widths[i] && Shows(line[i], FieldValue(fields[i], row))
    {
      var i := |line|;
      CellTextShows(fields[i], row, widths[i]);
      var v := DeserializeField(fields[i], row);
      var text := match v case Num(n) => Parser.Decimal(n) case Text(s) => s;
      line := line + [Padded(text, widths[i])];
    }
  }
}
