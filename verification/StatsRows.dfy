/** Reading a stats page: what its lines are, and that every row reads back to its uid and its
    non-zero counters. */
module StatsRows {
  import opened Options
  import opened Wire
  import opened Printer
  import opened Reports
  import opened StatsPager
  import opened StatsPages

  // ---------------------------------------------------------------------------
  // Reading
  // ---------------------------------------------------------------------------

  function Colon(s: string): (n: nat)
    ensures n <= |s| && (n < |s| ==> s[n] == ':') && forall i :: 0 <= i < n ==> s[i] != ':'
  {
    if s == "" || s[0] == ':' then 0 else 1 + Colon(s[1..])
  }

  /** A cell `id:count`. */
  function ReadCell(tok: string): Option<(nat, nat)> {
    var n := Colon(tok);
    if n == |tok| then None
    else
      var id, count := Prefixed(tok[..n], U32_MAX), Prefixed(tok[n + 1..], U64_MAX);
      if id.None? || count.None? then None else Some((id.value, count.value))
  }

  function ReadCells(toks: seq<string>): Option<seq<(nat, nat)>> {
    if toks == [] then Some([])
    else
      var front, last := ReadCells(toks[..|toks| - 1]), ReadCell(toks[|toks| - 1]);
      if front.None? || last.None? then None else Some(front.value + [last.value])
  }

  function ReadRow(line: string): Option<(nat, seq<(nat, nat)>)> {
    var t := Tokens(line);
    if t == [] then None
    else
      var uid, cells := Prefixed(t[0], U32_MAX), ReadCells(t[1..]);
      if uid.None? || cells.None? then None else Some((uid.value, cells.value))
  }

  /** The hooks with hits, in slot order. */
  function NonZero(counts: seq<nat>): seq<(nat, nat)> {
    if counts == [] then []
    else
      var n := |counts| - 1;
      NonZero(counts[..n]) + if counts[n] == 0 then [] else [(HookId(n), counts[n])]
  }

  // ---------------------------------------------------------------------------
  // Tokens of a row
  // ---------------------------------------------------------------------------

  function CellToken(hook: nat, count: nat): string { HexText(HookId(hook)) + ":" + HexText(count) }

  function CellTokens(counts: seq<nat>): seq<string> {
    if counts == [] then []
    else
      var n := |counts| - 1;
      CellTokens(counts[..n]) + if counts[n] == 0 then [] else [CellToken(n, counts[n])]
  }

  function RowLine(uid: nat, counts: seq<nat>): string { HexText(uid) + Spaced(CellTokens(counts)) }

  // ---------------------------------------------------------------------------
  // A row's text
  // ---------------------------------------------------------------------------

  /** Rendering with any text for an item. */
  function RenderBy(text: Item -> string, items: seq<Item>): string {
    if items == [] then "" else RenderBy(text, items[..|items| - 1]) + text(items[|items| - 1])
  }

  lemma {:induction false} RenderIs(text: Item -> string, items: seq<Item>)
    requires forall x {:trigger text(x)} :: text(x) == ItemText(x)
    ensures Render(items) == RenderBy(text, items)
  {
    if items != [] {
      RenderIs(text, items[..|items| - 1]);
      assert text(items[|items| - 1]) == ItemText(items[|items| - 1]);
    }
  }

  lemma {:induction false} JoinBy(text: Item -> string, a: seq<Item>, b: seq<Item>)
    ensures RenderBy(text, a + b) == RenderBy(text, a) + RenderBy(text, b)
  {
    if b == [] {
      assert a + b == a;
    } else {
      var n := |b| - 1;
      assert (a + b)[..|a + b| - 1] == a + b[..n] && (a + b)[|a + b| - 1] == b[n];
      JoinBy(text, a, b[..n]);
    }
  }

  lemma RenderJoin(a: seq<Item>, b: seq<Item>)
    ensures Render(a + b) == Render(a) + Render(b)
  {
    RenderIs(ItemText, a);
    RenderIs(ItemText, b);
    RenderIs(ItemText, a + b);
    JoinBy(ItemText, a, b);
  }

  lemma RenderFour(a: Item, b: Item, c: Item, d: Item)
    ensures Render([a, b, c, d]) == ItemText(a) + ItemText(b) + ItemText(c) + ItemText(d)
  {
    RenderAppend([], a);
    RenderAppend([] + [a], b);
    RenderAppend([] + [a] + [b], c);
    RenderAppend([] + [a] + [b] + [c], d);
    assert [a, b, c, d] == [] + [a] + [b] + [c] + [d];
    assert "" + ItemText(a) == ItemText(a);
  }

  lemma CellRenders(hook: nat, count: nat)
    ensures Render(Cell(hook, count)) == if count == 0 then "" else " " + CellToken(hook, count)
  {
    if count != 0 {
      var a, b := HexText(HookId(hook)), HexText(count);
      RenderFour(Chr(' '), Hex(HookId(hook)), Chr(':'), Hex(count));
      assert " " + a + ":" + b == " " + (a + ":" + b);
    }
  }

  lemma {:induction false} CellsRender(counts: seq<nat>)
    ensures Render(Cells(counts)) == Spaced(CellTokens(counts))
  {
    if counts != [] {
      var n := |counts| - 1;
      CellsRender(counts[..n]);
      CellsRenderStep(counts[..n], n, counts[n], Cells(counts), CellTokens(counts));
    }
  }

  lemma CellsRenderStep(front: seq<nat>, n: nat, count: nat, cells: seq<Item>, tokens: seq<string>)
    requires Render(Cells(front)) == Spaced(CellTokens(front)) && cells == Cells(front) + Cell(n, count)
    requires tokens == CellTokens(front) + if count == 0 then [] else [CellToken(n, count)]
    ensures Render(cells) == Spaced(tokens)
  {
    RenderJoin(Cells(front), Cell(n, count));
    CellRenders(n, count);
    if count == 0 {
      assert tokens == CellTokens(front);
    } else {
      SpacedAppend(CellTokens(front), CellToken(n, count));
    }
  }

  // ---------------------------------------------------------------------------
  // Reading it back
  // ---------------------------------------------------------------------------

  lemma HexNoColon(v: nat)
    ensures forall i :: 0 <= i < |HexText(v)| ==> HexText(v)[i] != ':'
  {
    DigitTextDigits(v, 16);
    assert forall i :: 0 <= i < |DigitText(v, 16)| ==> Digit(DigitText(v, 16)[i]) < 16;
  }

  lemma ColonAt(t: string, n: nat)
    requires n < |t| && t[n] == ':' && forall i :: 0 <= i < n ==> t[i] != ':'
    ensures Colon(t) == n
  {
  }

  lemma CellTextReads(a: string, b: string, id: nat, count: nat)
    requires (forall i :: 0 <= i < |a| ==> a[i] != ':') && Prefixed(a, U32_MAX) == Some(id) && Prefixed(b, U64_MAX) == Some(count)
    ensures ReadCell(a + ":" + b) == Some((id, count))
  {
    var t := a + ":" + b;
    assert t[|a|] == ':' && forall i :: 0 <= i < |a| ==> t[i] == a[i];
    ColonAt(t, |a|);
    assert t[..|a|] == a && t[|a| + 1..] == b;
  }

  lemma CellReadsBack(hook: nat, count: nat)
    requires count <= U64_MAX
    ensures ReadCell(CellToken(hook, count)) == Some((HookId(hook), count))
  {
    HexNoColon(HookId(hook));
    HexRoundTrip(HookId(hook), U32_MAX);
    HexRoundTrip(count, U64_MAX);
    CellTextReads(HexText(HookId(hook)), HexText(count), HookId(hook), count);
  }

  lemma CellIsWord(hook: nat, count: nat)
    ensures TokenChars(CellToken(hook, count)) && CellToken(hook, count) != ""
  {
    HexIsToken(HookId(hook));
    HexIsToken(count);
  }

  lemma ReadCellsAppend(toks: seq<string>, t: string, cells: seq<(nat, nat)>, cell: (nat, nat))
    requires ReadCells(toks) == Some(cells) && ReadCell(t) == Some(cell)
    ensures ReadCells(toks + [t]) == Some(cells + [cell])
  {
    assert (toks + [t])[..|toks|] == toks;
  }

  lemma CellsStep(toks: seq<string>, cells: seq<(nat, nat)>, hook: nat, count: nat, toks': seq<string>, cells': seq<(nat, nat)>)
    requires Words(toks) && ReadCells(toks) == Some(cells) && count <= U64_MAX
    requires toks' == toks + if count == 0 then [] else [CellToken(hook, count)]
    requires cells' == cells + if count == 0 then [] else [(HookId(hook), count)]
    ensures Words(toks') && ReadCells(toks') == Some(cells')
  {
    if count == 0 {
      assert toks' == toks && cells' == cells;
    } else {
      var t := CellToken(hook, count);
      CellReadsBack(hook, count);
      CellIsWord(hook, count);
      ReadCellsAppend(toks, t, cells, (HookId(hook), count));
    }
  }

  lemma {:induction false} CellsReadBack(counts: seq<nat>)
    requires Fit(counts)
    ensures Words(CellTokens(counts)) && ReadCells(CellTokens(counts)) == Some(NonZero(counts))
  {
    if counts != [] {
      var n := |counts| - 1;
      CellsReadBack(counts[..n]);
      CellsStep(CellTokens(counts[..n]), NonZero(counts[..n]), n, counts[n], CellTokens(counts), NonZero(counts));
    }
  }

  lemma RowRenders(uid: nat, counts: seq<nat>)
    ensures Render(Row(uid, counts)) == RowLine(uid, counts) + "\n"
  {
    CellsRender(counts);
    RenderAppend([], Hex(uid));
    assert [] + [Hex(uid)] == [Hex(uid)] && "" + HexText(uid) == HexText(uid);
    RenderJoin([Hex(uid)], Cells(counts));
    RenderAppend([Hex(uid)] + Cells(counts), Chr('\n'));
  }

  /** A printed row is one line, and it reads back to its uid and exactly its non-zero
      counters, each under its hook's id. */
  lemma RowReadsBack(uid: nat, counts: seq<nat>)
    requires uid <= U32_MAX && Fit(counts)
    ensures Render(Row(uid, counts)) == RowLine(uid, counts) + "\n" && LineChars(RowLine(uid, counts))
    ensures ReadRow(RowLine(uid, counts)) == Some((uid, NonZero(counts)))
  {
    RowRenders(uid, counts);
    CellsReadBack(counts);
    HexIsToken(uid);
    HexRoundTrip(uid, U32_MAX);
    var words := CellTokens(counts);
    RowTokens(HexText(uid), words);
    assert ([HexText(uid)] + words)[1..] == words;
  }

  // ---------------------------------------------------------------------------
  // Lines of a page
  // ---------------------------------------------------------------------------

  predicate Readable(rows: seq<Emit>) { forall i :: 0 <= i < |rows| ==> rows[i].uid <= U32_MAX && Fit(rows[i].counts) }

  /** A line that reads as the row's uid and non-zero counters. */
  predicate ReadsAsRow(line: string, e: Emit) { ReadRow(line) == Some((e.uid, NonZero(e.counts))) }

  function RowLines(rows: seq<Emit>): seq<string> {
    if rows == [] then [] else RowLines(rows[..|rows| - 1]) + [RowLine(rows[|rows| - 1].uid, rows[|rows| - 1].counts)]
  }

  lemma {:induction false} LinesOfRows(rows: seq<Emit>, tail: string)
    requires Readable(rows)
    ensures Lines(RowsText(rows) + tail) == RowLines(rows) + Lines(tail)
  {
    if rows == [] {
      assert RowsText(rows) + tail == tail;
    } else {
      var front, e := rows[..|rows| - 1], rows[|rows| - 1];
      LinesOfRows(front, RowText(e) + tail);
      RowThen(e, tail);
      RowBehind(RowsText(front), RowText(e), tail, RowsText(rows), RowLines(front), RowLine(e.uid, e.counts));
    }
  }

  lemma RowBehind(front: string, row: string, tail: string, all: string, lines: seq<string>, line: string)
    requires all == front + row && Lines(front + (row + tail)) == lines + Lines(row + tail) && Lines(row + tail) == [line] + Lines(tail)
    ensures Lines(all + tail) == lines + [line] + Lines(tail)
  {
    Regroup(front, row, tail);
    ListRegroup(lines, line, Lines(tail));
  }

  lemma Regroup(a: string, b: string, c: string)
    ensures a + b + c == a + (b + c)
  {
  }

  lemma ListRegroup(a: seq<string>, x: string, b: seq<string>)
    ensures a + ([x] + b) == a + [x] + b
  {
  }

  lemma RowThen(e: Emit, tail: string)
    requires e.uid <= U32_MAX && Fit(e.counts)
    ensures Lines(RowText(e) + tail) == [RowLine(e.uid, e.counts)] + Lines(tail)
  {
    var line := RowLine(e.uid, e.counts);
    RowReadsBack(e.uid, e.counts);
    LineCons(line, tail);
  }

  lemma TrailerLines(line: string, done: bool)
    requires LineChars(line) && line != ""
    ensures Lines(line + if done then "\n" else "") == [line]
  {
    if done {
      assert line + "\n" == line + "\n" + "";
      LineCons(line, "");
      assert Lines("") == [];
    } else {
      assert line + "" == line;
      LineWhole(line);
    }
  }

  lemma LineWhole(line: string)
    requires LineChars(line) && line != ""
    ensures Lines(line) == [line]
  {
    NoBreak(line);
    assert line[..|line|] == line && AfterLine(line) == "";
  }

  lemma {:induction false} NoBreak(line: string)
    requires LineChars(line)
    ensures LineLen(line) == |line|
  {
    if line != "" {
      NoBreak(line[1..]);
    }
  }

  lemma PageLinesFor(head: string, rows: seq<Emit>, line: string, trailer: string, done: bool, page: string)
    requires LineChars(head) && LineChars(line) && line != "" && trailer == line + if done then "\n" else ""
    requires page == head + "\n" + RowsText(rows) + trailer && Readable(rows)
    ensures Lines(page) == [head] + RowLines(rows) + [line]
  {
    TrailerLines(line, done);
    LinesOfRows(rows, trailer);
    PageLines(head, RowsText(rows), trailer, page);
  }

  lemma PageLines(head: string, rows: string, trailer: string, page: string)
    requires LineChars(head) && page == head + "\n" + rows + trailer
    ensures Lines(page) == [head] + Lines(rows + trailer)
  {
    assert page == head + "\n" + (rows + trailer);
    LineCons(head, rows + trailer);
  }

  /** A page is its header line, its row lines in order, each reading back to its row, and its
      trailer, whether or not that ends in a newline. */
  lemma PageReadsBack(requested: nat, rows: seq<Emit>, cursor: nat, done: bool, head: string, page: string, next: string)
    requires requested <= U32_MAX && cursor <= U32_MAX && |rows| <= U32_MAX && Readable(rows)
    requires head == "vpnhide " + DecText(TELEMETRY_VERSION) + " " + "stats" && page == "page" && next == if done then "done" else HexText(cursor)
    ensures Lines(PageText(requested, rows, cursor, done)) == [head] + RowLines(rows) + [TrailerLine(page, HexText(requested), next, HexText(|rows|))]
    ensures |RowLines(rows)| == |rows| && forall i :: 0 <= i < |rows| ==> ReadsAsRow(RowLines(rows)[i], rows[i])
  {
    RowLinesRead(rows);
    TrailerReadsBack(requested, cursor, done, |rows|, page, next);
    TelemetryHeader("stats");
    var line := TrailerLine(page, HexText(requested), next, HexText(|rows|));
    PageLinesFor(head, rows, line, Trailer(requested, cursor, done, |rows|), done, PageText(requested, rows, cursor, done));
  }

  lemma {:induction false} RowLineAt(rows: seq<Emit>, i: nat)
    ensures |RowLines(rows)| == |rows| && (i < |rows| ==> RowLines(rows)[i] == RowLine(rows[i].uid, rows[i].counts))
  {
    if rows != [] {
      RowLineAt(rows[..|rows| - 1], i);
    }
  }

  lemma RowLinesRead(rows: seq<Emit>)
    requires Readable(rows)
    ensures |RowLines(rows)| == |rows| && forall i :: 0 <= i < |rows| ==> ReadsAsRow(RowLines(rows)[i], rows[i])
  {
    RowLineAt(rows, 0);
    forall i | 0 <= i < |rows|
      ensures ReadsAsRow(RowLines(rows)[i], rows[i])
    {
      RowLineAt(rows, i);
      LineReads(rows[i]);
    }
  }

  lemma LineReads(e: Emit)
    requires e.uid <= U32_MAX && Fit(e.counts)
    ensures ReadsAsRow(RowLine(e.uid, e.counts), e)
  {
    RowReadsBack(e.uid, e.counts);
  }

  /** The rows of a formatted page are such rows. */
  lemma PageRowsAreReadable(h: nat -> Table, k0: nat, k: nat, requested: nat, cursor: nat, rows: seq<Emit>)
    requires Grows(h) && Progress(h, k0, k, requested, cursor, rows)
    ensures |rows| <= U32_MAX && Readable(rows)
  {
    forall i | 0 <= i < |rows|
      ensures Fit(rows[i].counts)
    {
      assert Real(h, rows[i]);
      LoadsFit(h, rows[i].at, rows[i].slot);
    }
  }
}
