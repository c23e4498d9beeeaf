/** Cursor paging over the lock-free hit counters. The table may change under the reader:
    `h(k)` is the table as the k-th atomic load finds it, so a constant `h` is an unchanging
    table and a growing one any concurrent run. */
module StatsPager {
  import opened Wire
  import opened Printer
  import opened Reports

  const SLOTS: nat := 160
  const HOOKS: nat := 12
  const ROW_MAX: nat := 512
  const TRAILER_RESERVE: nat := 64

  datatype Table = Table(uids: seq<nat>, counts: seq<seq<nat>>)

  /** The load of stats_uids[i] at time k + i. */
  function LoadUid(h: nat -> Table, k: nat, i: nat): nat {
    if i < |h(k + i).uids| then h(k + i).uids[i] else 0
  }

  /** The load of stats_counts[slot][j] at time k + j. */
  function LoadCount(h: nat -> Table, k: nat, slot: nat, j: nat): nat {
    if slot < |h(k + j).counts| && j < |h(k + j).counts[slot]| then h(k + j).counts[slot][j] else 0
  }

  predicate WellFormed(t: Table) {
    && |t.uids| == |t.counts| == SLOTS
    && (forall i :: 0 <= i < SLOTS ==> t.uids[i] <= U32_MAX && |t.counts[i]| == HOOKS)
    && (forall i, j :: 0 <= i < SLOTS && 0 <= j < HOOKS ==> t.counts[i][j] <= U64_MAX)
    && (forall i, j :: 0 <= i < j < SLOTS && t.uids[i] != 0 ==> t.uids[i] != t.uids[j])
  }

  /** Slots are never freed and counters never return to zero. */
  ghost predicate Later(t: Table, u: Table)
    requires WellFormed(t) && WellFormed(u)
  {
    && (forall i :: 0 <= i < SLOTS && t.uids[i] != 0 ==> u.uids[i] == t.uids[i])
    && (forall i, j :: 0 <= i < SLOTS && 0 <= j < HOOKS && t.counts[i][j] != 0 ==> u.counts[i][j] != 0)
  }

  ghost predicate Grows(h: nat -> Table) {
    && (forall k :: WellFormed(h(k)))
    && (forall i: nat, j: nat {:trigger Later(h(i), h(j))} :: i <= j ==> Later(h(i), h(j)))
  }

  ghost predicate Unchanging(h: nat -> Table) { forall k :: h(k) == h(0) }

  /** uid has a slot with a non-zero counter. */
  ghost predicate HasHits(t: Table, slot: nat)
    requires WellFormed(t) && slot < SLOTS
  {
    exists j :: 0 <= j < HOOKS && t.counts[slot][j] != 0
  }

  ghost predicate CountedAt(t: Table, uid: nat, slot: nat)
    requires WellFormed(t)
  {
    slot < SLOTS && uid != 0 && t.uids[slot] == uid && HasHits(t, slot)
  }

  ghost predicate Counted(t: Table, uid: nat)
    requires WellFormed(t)
  {
    exists slot :: CountedAt(t, uid, slot)
  }

  // ---------------------------------------------------------------------------
  // next_stats_uid
  // ---------------------------------------------------------------------------

  /** The smallest uid above `after`, slot i being loaded at time k + i. */
  method NextUid(h: nat -> Table, k: nat, after: nat) returns (found: bool, uid: nat, slot: nat)
    requires Grows(h)
    ensures found ==> slot < SLOTS && after < uid == LoadUid(h, k, slot) <= U32_MAX
    ensures forall i :: 0 <= i < SLOTS && LoadUid(h, k, i) > after ==> found && uid <= LoadUid(h, k, i)
  {
    found, uid, slot := false, U32_MAX, 0;
    for i := 0 to SLOTS
      invariant found ==> slot < i && after < uid == LoadUid(h, k, slot) <= U32_MAX
      invariant forall j :: 0 <= j < i && LoadUid(h, k, j) > after ==> found && uid <= LoadUid(h, k, j)
    {
      assert WellFormed(h(k + i));
      var u := LoadUid(h, k, i);
      if u > after && (!found || u < uid) {
        found, uid, slot := true, u, i;
      }
    }
  }

  /** A uid present at time k is not missed by a later scan. */
  lemma NotMissed(h: nat -> Table, k: nat, k': nat, uid: nat, slot: nat)
    requires Grows(h) && k <= k' && slot < SLOTS && h(k).uids[slot] == uid != 0
    ensures LoadUid(h, k', slot) == uid
  {
    assert Later(h(k), h(k' + slot));
  }

  /** One uid, one slot, at any two times. */
  lemma SameSlot(h: nat -> Table, k: nat, k': nat, a: nat, b: nat, uid: nat)
    requires Grows(h) && a < SLOTS && b < SLOTS && uid != 0 && h(k).uids[a] == uid == h(k').uids[b]
    ensures a == b
  {
    var m := if k < k' then k' else k;
    assert Later(h(k), h(m)) && Later(h(k'), h(m)) && WellFormed(h(m));
  }

  // ---------------------------------------------------------------------------
  // format_stats_row
  // ---------------------------------------------------------------------------

  function HookId(slot: nat): nat { if slot < 10 then slot else if slot == 10 then 25 else 27 }

  /** What a reply is made of: characters and hexadecimal numbers. */
  datatype Item = Chr(c: char) | Hex(v: nat)

  function ItemText(x: Item): string { if x.Chr? then [x.c] else HexText(x.v) }

  function Render(items: seq<Item>): string {
    if items == [] then "" else Render(items[..|items| - 1]) + ItemText(items[|items| - 1])
  }

  lemma RenderAppend(items: seq<Item>, x: Item)
    ensures Render(items + [x]) == Render(items) + ItemText(x)
  {
    assert (items + [x])[..|items|] == items;
  }

  function Cell(hook: nat, count: nat): seq<Item> {
    if count == 0 then [] else [Chr(' '), Hex(HookId(hook)), Chr(':'), Hex(count)]
  }

  function Cells(counts: seq<nat>): seq<Item> {
    if counts == [] then [] else Cells(counts[..|counts| - 1]) + Cell(|counts| - 1, counts[|counts| - 1])
  }

  function Row(uid: nat, counts: seq<nat>): seq<Item> { [Hex(uid)] + Cells(counts) + [Chr('\n')] }

  /** A slot's counters, loaded one after another from time k. */
  function Loads(h: nat -> Table, k: nat, slot: nat): (counts: seq<nat>)
    ensures |counts| == HOOKS && forall j :: 0 <= j < HOOKS ==> counts[j] == LoadCount(h, k, slot, j)
  {
    seq(HOOKS, j requires 0 <= j => LoadCount(h, k, slot, j))
  }

  predicate Fit(counts: seq<nat>) { forall j :: 0 <= j < |counts| ==> counts[j] <= U64_MAX }

  predicate SomeHits(counts: seq<nat>) { exists j :: 0 <= j < |counts| && counts[j] != 0 }

  lemma HexLengths(v: nat)
    ensures v <= U64_MAX ==> 3 <= |HexText(v)| <= 18
    ensures v <= U32_MAX ==> 3 <= |HexText(v)| <= 10
    ensures v <= 0xff ==> 3 <= |HexText(v)| <= 4
  {
    Widths();
    if v <= U64_MAX {
      DigitTextLength(v, 16, 16);
    }
    if v <= U32_MAX {
      DigitTextLength(v, 16, 8);
    }
    if v <= 0xff {
      assert Pow(16, 2) == 0x100;
      DigitTextLength(v, 16, 2);
    }
  }

  /** Longest rendering of an item of a row. */
  function Width(x: Item): nat {
    if x.Chr? then 1 else if x.v <= 0xff then 4 else if x.v <= U32_MAX then 10 else 18
  }

  function TotalWidth(items: seq<Item>): nat {
    if items == [] then 0 else TotalWidth(items[..|items| - 1]) + Width(items[|items| - 1])
  }

  lemma ItemWidth(x: Item)
    requires x.Hex? ==> x.v <= U64_MAX
    ensures |ItemText(x)| <= Width(x)
  {
    if x.Hex? {
      HexLengths(x.v);
    }
  }

  lemma {:induction false} RenderWidth(items: seq<Item>)
    requires forall i :: 0 <= i < |items| && items[i].Hex? ==> items[i].v <= U64_MAX
    ensures |Render(items)| <= TotalWidth(items)
  {
    if items != [] {
      RenderWidth(items[..|items| - 1]);
      ItemWidth(items[|items| - 1]);
    }
  }

  lemma {:induction false} WidthsAdd(a: seq<Item>, b: seq<Item>)
    ensures TotalWidth(a + b) == TotalWidth(a) + TotalWidth(b)
  {
    if b == [] {
      assert a + b == a;
    } else {
      var n := |b| - 1;
      assert (a + b)[..|a| + n] == a + b[..n];
      WidthsAdd(a, b[..n]);
    }
  }

  /** Numbers of a row are 64-bit. */
  predicate Small(items: seq<Item>) {
    forall i :: 0 <= i < |items| && items[i].Hex? ==> items[i].v <= U64_MAX
  }

  lemma WidthAppend(items: seq<Item>, x: Item)
    ensures TotalWidth(items + [x]) == TotalWidth(items) + Width(x)
  {
    assert (items + [x])[..|items|] == items;
  }

  lemma CellWidth(hook: nat, count: nat)
    requires count <= U64_MAX
    ensures TotalWidth(Cell(hook, count)) <= 24 && Small(Cell(hook, count))
  {
    if count != 0 {
      WidthAppend([], Chr(' '));
      WidthAppend([] + [Chr(' ')], Hex(HookId(hook)));
      WidthAppend([] + [Chr(' ')] + [Hex(HookId(hook))], Chr(':'));
      WidthAppend([] + [Chr(' ')] + [Hex(HookId(hook))] + [Chr(':')], Hex(count));
      assert Cell(hook, count) == [] + [Chr(' ')] + [Hex(HookId(hook))] + [Chr(':')] + [Hex(count)];
    }
  }

  lemma {:induction false} CellsWidth(counts: seq<nat>)
    requires Fit(counts)
    ensures TotalWidth(Cells(counts)) <= 24 * |counts| && Small(Cells(counts))
  {
    if counts != [] {
      var n := |counts| - 1;
      CellsWidth(counts[..n]);
      CellWidth(n, counts[n]);
      WidthsAdd(Cells(counts[..n]), Cell(n, counts[n]));
    }
  }

  /** No row is longer than 299 bytes, well inside its 512-byte buffer. */
  lemma RowLength(uid: nat, counts: seq<nat>)
    requires uid <= U32_MAX && |counts| == HOOKS && Fit(counts)
    ensures |Render(Row(uid, counts))| <= 299
  {
    var cells := Cells(counts);
    CellsWidth(counts);
    WidthsAdd([Hex(uid)], cells);
    WidthsAdd([Hex(uid)] + cells, [Chr('\n')]);
    assert [Hex(uid)][..0] == [] && [Chr('\n')][..0] == [];
    RenderWidth(Row(uid, counts));
  }

  method PutChr(b: Buf, c: char, ghost items: seq<Item>) returns (ghost more: seq<Item>)
    requires b.Valid() && b.text == Render(items)
    modifies b, b.p
    ensures b.Valid() && more == items + [Chr(c)] && b.text == Render(more)
  {
    b.Putc(c);
    more := items + [Chr(c)];
    RenderAppend(items, Chr(c));
  }

  method PutNum(b: Buf, v: nat, ghost items: seq<Item>) returns (ghost more: seq<Item>)
    requires b.Valid() && b.text == Render(items) && v <= U64_MAX
    modifies b, b.p
    ensures b.Valid() && more == items + [Hex(v)] && b.text == Render(more)
  {
    b.PutHex(v);
    more := items + [Hex(v)];
    RenderAppend(items, Hex(v));
  }

  method PutCell(b: Buf, hook: nat, count: nat, ghost items: seq<Item>) returns (ghost more: seq<Item>)
    requires b.Valid() && b.text == Render(items) && count <= U64_MAX
    modifies b, b.p
    ensures b.Valid() && more == items + Cell(hook, count) && b.text == Render(more)
  {
    more := items;
    if count != 0 {
      more := PutChr(b, ' ', more);
      more := PutNum(b, HookId(hook), more);
      more := PutChr(b, ':', more);
      more := PutNum(b, count, more);
    }
  }

  lemma CellsStep(counts: seq<nat>, n: nat, items: seq<Item>, more: seq<Item>)
    requires n < |counts| && more == items + Cells(counts[..n])
    ensures more + Cell(n, counts[n]) == items + Cells(counts[..n + 1])
    ensures SomeHits(counts[..n + 1]) <==> SomeHits(counts[..n]) || counts[n] != 0
  {
    assert counts[..n + 1][..n] == counts[..n];
    if SomeHits(counts[..n]) {
      var j :| 0 <= j < |counts[..n]| && counts[..n][j] != 0;
      assert counts[..n + 1][j] != 0;
    }
    assert counts[..n + 1][n] == counts[n];
  }

  /** The counters are loaded and printed in turn. */
  method PutCells(b: Buf, h: nat -> Table, k: nat, slot: nat, ghost items: seq<Item>) returns (have: bool, ghost more: seq<Item>)
    requires b.Valid() && b.text == Render(items) && Fit(Loads(h, k, slot))
    modifies b, b.p
    ensures b.Valid() && more == items + Cells(Loads(h, k, slot)) && b.text == Render(more)
    ensures have <==> SomeHits(Loads(h, k, slot))
  {
    ghost var counts := Loads(h, k, slot);
    have, more := false, items;
    var hook := 0;
    while hook < HOOKS
      invariant hook <= HOOKS && b.Valid() && b.text == Render(more) && more == items + Cells(counts[..hook])
      invariant have <==> SomeHits(counts[..hook])
    {
      CellsStep(counts, hook, items, more);
      var count := LoadCount(h, k, slot, hook);
      have := have || count != 0;
      more := PutCell(b, hook, count, more);
      hook := hook + 1;
    }
    assert counts[..HOOKS] == counts;
  }

  /** format_stats_row: nothing for a uid with no hits; its row fits the row buffer. */
  method FormatRow(h: nat -> Table, k: nat, uid: nat, slot: nat, row: array<char>) returns (len: nat)
    requires Grows(h) && slot < SLOTS && uid <= U32_MAX && row.Length == ROW_MAX
    modifies row
    ensures len <= 299 && (len == 0 <==> !SomeHits(Loads(h, k, slot)))
    ensures len > 0 ==> row[..len] == Render(Row(uid, Loads(h, k, slot)))
  {
    var b := new Buf(row);
    ghost var items: seq<Item> := [];
    items := PutNum(b, uid, items);
    LoadsFit(h, k, slot);
    var have;
    have, items := PutCells(b, h, k, slot, items);
    if !have {
      return 0;
    }
    items := PutChr(b, '\n', items);
    RowLength(uid, Loads(h, k, slot));
    assert items == Row(uid, Loads(h, k, slot));
    len := b.len;
  }

  lemma LoadsFit(h: nat -> Table, k: nat, slot: nat)
    requires Grows(h) && slot < SLOTS
    ensures Fit(Loads(h, k, slot))
  {
    forall j | 0 <= j < HOOKS
      ensures LoadCount(h, k, slot, j) <= U64_MAX
    {
      assert WellFormed(h(k + j));
    }
  }

  /** A uid counted at time k has a row at any later time. */
  lemma CountedHasRow(h: nat -> Table, k: nat, k': nat, uid: nat, slot: nat)
    requires Grows(h) && k <= k' && CountedAt(h(k), uid, slot)
    ensures SomeHits(Loads(h, k', slot))
  {
    var j :| 0 <= j < HOOKS && h(k).counts[slot][j] != 0;
    assert Later(h(k), h(k' + j));
    assert LoadCount(h, k', slot, j) != 0;
    assert Loads(h, k', slot)[j] != 0;
  }

  /** A row's uid had hits by the time its counters were read. */
  lemma RowMeansHits(h: nat -> Table, k: nat, uid: nat, slot: nat)
    requires Grows(h) && slot < SLOTS && uid != 0 && h(k).uids[slot] == uid && SomeHits(Loads(h, k, slot))
    ensures Counted(h(k + HOOKS), uid)
  {
    var j :| 0 <= j < |Loads(h, k, slot)| && Loads(h, k, slot)[j] != 0;
    assert LoadCount(h, k, slot, j) != 0;
    assert Later(h(k + j), h(k + HOOKS)) && Later(h(k), h(k + HOOKS));
    assert h(k + HOOKS).counts[slot][j] != 0;
    assert CountedAt(h(k + HOOKS), uid, slot);
  }
}
