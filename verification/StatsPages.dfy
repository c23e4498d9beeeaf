/** Stats pages: each fits its buffer, and following their cursors to `done` lists every uid
    that had hits at the start exactly once, in ascending order, even while slots are claimed. */
module StatsPages {
  import opened Options
  import opened Wire
  import opened Printer
  import opened Reports
  import opened StatsPager

  /** A printed row: its uid and counters, and the slot and the time they were loaded from. */
  datatype Emit = Emit(uid: nat, counts: seq<nat>, slot: nat, at: nat)

  function RowText(e: Emit): string { Render(Row(e.uid, e.counts)) }

  function RowsText(rows: seq<Emit>): string {
    if rows == [] then "" else RowsText(rows[..|rows| - 1]) + RowText(rows[|rows| - 1])
  }

  lemma RowsTextAppend(head: string, rows: seq<Emit>, e: Emit)
    ensures head + RowsText(rows + [e]) == head + RowsText(rows) + RowText(e)
  {
    assert (rows + [e])[..|rows|] == rows;
  }

  function Opening(requested: nat): string { "page " + HexText(requested) + " " }

  function Next(cursor: nat, done: bool): string { (if done then "done" else HexText(cursor)) + " " }

  /** Only a final page ends in a newline. */
  function Ending(rows: nat, done: bool): string { HexText(rows) + if done then "\n" else "" }

  function Trailer(requested: nat, cursor: nat, done: bool, rows: nat): string {
    Opening(requested) + Next(cursor, done) + Ending(rows, done)
  }

  function Head(): string { HeaderText("stats", TELEMETRY_VERSION) }

  function PageText(requested: nat, rows: seq<Emit>, cursor: nat, done: bool): string {
    Head() + RowsText(rows) + Trailer(requested, cursor, done, |rows|)
  }

  ghost predicate Ascending(low: nat, rows: seq<Emit>, high: nat) {
    && (forall i :: 0 <= i < |rows| ==> low < rows[i].uid <= high)
    && (forall i, j :: 0 <= i < j < |rows| ==> rows[i].uid < rows[j].uid)
  }

  ghost predicate Listed(rows: seq<Emit>, uid: nat) { exists i :: 0 <= i < |rows| && rows[i].uid == uid }

  /** Every uid counted at time k0 in (low, high] is listed. */
  ghost predicate Complete(h: nat -> Table, k0: nat, low: nat, high: nat, rows: seq<Emit>)
    requires WellFormed(h(k0))
  {
    forall uid: nat, slot: nat :: CountedAt(h(k0), uid, slot) && low < uid <= high ==> Listed(rows, uid)
  }

  /** A row for uid with the counters the loads from time k find. */
  function Loaded(h: nat -> Table, k: nat, uid: nat, slot: nat): Emit { Emit(uid, Loads(h, k, slot), slot, k) }

  /** A row's counters are the loads from its slot, which its uid owned. */
  ghost predicate Real(h: nat -> Table, e: Emit)
    requires Grows(h)
  {
    e.slot < SLOTS && h(e.at).uids[e.slot] == e.uid && e.counts == Loads(h, e.at, e.slot)
  }

  /** Rows are real, and of uids that had hits by time k1. */
  ghost predicate Truthful(h: nat -> Table, k1: nat, rows: seq<Emit>)
    requires Grows(h)
  {
    forall i :: 0 <= i < |rows| ==> Real(h, rows[i]) && Counted(h(k1), rows[i].uid)
  }

  ghost function Unclaimed(t: Table): set<nat> { set i: nat | i < SLOTS && i < |t.uids| && t.uids[i] == 0 }

  lemma ClaimsOnlyGrow(h: nat -> Table, k: nat, k': nat)
    requires Grows(h) && k <= k'
    ensures Unclaimed(h(k')) <= Unclaimed(h(k)) && |Unclaimed(h(k'))| <= |Unclaimed(h(k))|
  {
    assert Later(h(k), h(k'));
    Subset(Unclaimed(h(k')), Unclaimed(h(k)));
  }

  lemma Subset(a: set<nat>, b: set<nat>)
    requires a <= b
    ensures |a| <= |b| && (a != b ==> |a| < |b|)
  {
    assert b == a + (b - a);
  }

  lemma CountedStays(h: nat -> Table, k: nat, k': nat, uid: nat)
    requires Grows(h) && k <= k' && Counted(h(k), uid)
    ensures Counted(h(k'), uid)
  {
    var slot: nat :| CountedAt(h(k), uid, slot);
    var j :| 0 <= j < HOOKS && h(k).counts[slot][j] != 0;
    assert Later(h(k), h(k'));
    assert h(k').counts[slot][j] != 0;
    assert CountedAt(h(k'), uid, slot);
  }

  lemma TruthfulLater(h: nat -> Table, k: nat, k': nat, rows: seq<Emit>)
    requires Grows(h) && k <= k' && Truthful(h, k, rows)
    ensures Truthful(h, k', rows)
  {
    forall i | 0 <= i < |rows|
      ensures Counted(h(k'), rows[i].uid)
    {
      CountedStays(h, k, k', rows[i].uid);
    }
  }

  /** uid is the least one above cursor that the scan starting at time k loads, from slot. */
  ghost predicate Scanned(h: nat -> Table, k: nat, cursor: nat, uid: nat, slot: nat) {
    && slot < SLOTS && cursor < uid == LoadUid(h, k, slot) <= U32_MAX
    && forall i :: 0 <= i < SLOTS && LoadUid(h, k, i) > cursor ==> uid <= LoadUid(h, k, i)
  }

  /** What a scan says about a uid that was counted before it: it is found unless a smaller
      one is, and then its row is not empty. */
  lemma ScanFindsCounted(h: nat -> Table, k0: nat, k: nat, cursor: nat, found: bool, uid: nat, slot: nat, u: nat, s: nat)
    requires Grows(h) && k0 <= k && CountedAt(h(k0), u, s) && cursor < u
    requires found ==> slot < SLOTS && cursor < uid == LoadUid(h, k, slot)
    requires forall i :: 0 <= i < SLOTS && LoadUid(h, k, i) > cursor ==> found && uid <= LoadUid(h, k, i)
    ensures found && uid <= u && (uid == u ==> SomeHits(Loads(h, k + SLOTS, slot)))
  {
    NotMissed(h, k0, k, u, s);
    if uid == u {
      assert WellFormed(h(k + slot));
      SameSlot(h, k0, k + slot, s, slot, u);
      CountedHasRow(h, k0, k + SLOTS, u, s);
    }
  }

  /** Moving the cursor to the scan's uid loses nothing that its row does not say. */
  lemma CompleteStep(h: nat -> Table, k0: nat, k: nat, low: nat, cursor: nat, uid: nat, slot: nat, rows: seq<Emit>, rows': seq<Emit>)
    requires Grows(h) && k0 <= k && Complete(h, k0, low, cursor, rows) && Scanned(h, k, cursor, uid, slot)
    requires if SomeHits(Loads(h, k + SLOTS, slot)) then rows' == rows + [Loaded(h, k + SLOTS, uid, slot)] else rows' == rows
    ensures Complete(h, k0, low, uid, rows')
  {
    forall u: nat, s: nat | CountedAt(h(k0), u, s) && low < u <= uid
      ensures Listed(rows', u)
    {
      if u <= cursor {
        assert Listed(rows, u);
        var i :| 0 <= i < |rows| && rows[i].uid == u;
        assert rows'[i].uid == u;
      } else {
        ScanFindsCounted(h, k0, k, cursor, true, uid, slot, u, s);
        assert rows'[|rows|].uid == u;
      }
    }
  }

  lemma AscendingAppend(low: nat, rows: seq<Emit>, cursor: nat, e: Emit)
    requires Ascending(low, rows, cursor) && low <= cursor < e.uid
    ensures Ascending(low, rows + [e], e.uid)
  {
  }

  lemma TruthfulAppend(h: nat -> Table, k: nat, rows: seq<Emit>, uid: nat, slot: nat)
    requires Grows(h) && Truthful(h, k, rows) && slot < SLOTS && uid != 0 && uid == LoadUid(h, k, slot)
    requires SomeHits(Loads(h, k + SLOTS, slot))
    ensures Truthful(h, k + SLOTS + HOOKS, rows + [Loaded(h, k + SLOTS, uid, slot)])
  {
    TruthfulLater(h, k, k + SLOTS + HOOKS, rows);
    assert WellFormed(h(k + slot)) && Later(h(k + slot), h(k + SLOTS));
    RowMeansHits(h, k + SLOTS, uid, slot);
    assert Real(h, Loaded(h, k + SLOTS, uid, slot));
  }

  /** A scan that found nothing and a later one that did: a slot was claimed in between. */
  lemma FoundMeansClaimed(h: nat -> Table, k: nat, k': nat, cursor: nat, slot: nat)
    requires Grows(h) && k + SLOTS <= k' && slot < SLOTS && LoadUid(h, k, slot) <= cursor < LoadUid(h, k', slot)
    ensures |Unclaimed(h(k' + SLOTS))| < |Unclaimed(h(k))|
  {
    assert WellFormed(h(k + slot)) && WellFormed(h(k' + slot));
    assert Later(h(k + slot), h(k' + slot)) && Later(h(k' + slot), h(k' + SLOTS)) && Later(h(k), h(k + slot));
    assert slot in Unclaimed(h(k)) && slot !in Unclaimed(h(k' + SLOTS));
    ClaimsOnlyGrow(h, k, k' + SLOTS);
    Subset(Unclaimed(h(k' + SLOTS)), Unclaimed(h(k)));
  }

  // ---------------------------------------------------------------------------
  // format_stats_page
  // ---------------------------------------------------------------------------

  method PutRow(b: Buf, row: array<char>, n: nat)
    requires b.Valid() && n <= row.Length && row != b.p
    modifies b, b.p
    ensures b.Valid() && b.text == old(b.text) + row[..n]
  {
    for i := 0 to n
      invariant b.Valid() && b.text == old(b.text) + row[..i]
    {
      b.Putc(row[i]);
    }
  }

  lemma TrailerLength(requested: nat, cursor: nat, done: bool, rows: nat)
    requires requested <= U32_MAX && cursor <= U32_MAX && rows <= U32_MAX
    ensures |Trailer(requested, cursor, done, rows)| <= TRAILER_RESERVE
  {
    HexLengths(requested);
    HexLengths(cursor);
    HexLengths(rows);
  }

  method PutOpening(b: Buf, requested: nat)
    requires b.Valid() && requested <= U32_MAX
    modifies b, b.p
    ensures b.Valid() && b.text == old(b.text) + Opening(requested)
  {
    b.Puts("page ");
    b.PutHex(requested);
    b.Putc(' ');
  }

  method PutNext(b: Buf, cursor: nat, done: bool)
    requires b.Valid() && cursor <= U32_MAX
    modifies b, b.p
    ensures b.Valid() && b.text == old(b.text) + Next(cursor, done)
  {
    if done {
      b.Puts("done");
    } else {
      b.PutHex(cursor);
    }
    b.Putc(' ');
  }

  method PutEnding(b: Buf, rows: nat, done: bool)
    requires b.Valid() && rows <= U32_MAX
    modifies b, b.p
    ensures b.Valid() && b.text == old(b.text) + Ending(rows, done)
  {
    b.PutHex(rows);
    if done {
      b.Putc('\n');
    }
  }

  lemma Regroup(a: string, x: string, y: string, z: string)
    ensures a + x + y + z == a + (x + y + z)
  {
  }

  method PutTrailer(b: Buf, requested: nat, cursor: nat, done: bool, rows: nat)
    requires b.Valid() && requested <= U32_MAX && cursor <= U32_MAX && rows <= U32_MAX
    modifies b, b.p
    ensures b.Valid() && b.text == old(b.text) + Trailer(requested, cursor, done, rows)
    ensures b.len <= old(b.len) + TRAILER_RESERVE
  {
    TrailerLength(requested, cursor, done, rows);
    ghost var x, y, z := Opening(requested), Next(cursor, done), Ending(rows, done);
    PutOpening(b, requested);
    PutNext(b, cursor, done);
    PutEnding(b, rows, done);
    Regroup(old(b.text), x, y, z);
  }

  lemma HeadLength()
    ensures |Head()| == 16
  {
    assert |DecText(1)| == 1 by {
      assert DecText(1) == DigitText(1, 10);
    }
  }

  /** What the rows of a page started at time k0 say at time k. */
  ghost predicate Progress(h: nat -> Table, k0: nat, k: nat, requested: nat, cursor: nat, rows: seq<Emit>)
    requires Grows(h)
  {
    && k0 <= k && requested <= cursor <= U32_MAX && |rows| <= cursor - requested
    && Ascending(requested, rows, cursor) && Truthful(h, k, rows) && Complete(h, k0, requested, cursor, rows)
  }

  lemma ProgressStep(h: nat -> Table, k0: nat, k: nat, requested: nat, cursor: nat, rows: seq<Emit>, uid: nat, slot: nat, rows': seq<Emit>)
    requires Grows(h) && Progress(h, k0, k, requested, cursor, rows) && Scanned(h, k, cursor, uid, slot)
    requires if SomeHits(Loads(h, k + SLOTS, slot)) then rows' == rows + [Loaded(h, k + SLOTS, uid, slot)] else rows' == rows
    ensures Progress(h, k0, k + SLOTS + HOOKS, requested, uid, rows')
  {
    if SomeHits(Loads(h, k + SLOTS, slot)) {
      AscendingAppend(requested, rows, cursor, Loaded(h, k + SLOTS, uid, slot));
      TruthfulAppend(h, k, rows, uid, slot);
    } else {
      TruthfulLater(h, k, k + SLOTS + HOOKS, rows);
    }
    CompleteStep(h, k0, k, requested, cursor, uid, slot, rows, rows');
  }

  lemma ProgressLater(h: nat -> Table, k0: nat, k: nat, k': nat, requested: nat, cursor: nat, rows: seq<Emit>)
    requires Grows(h) && Progress(h, k0, k, requested, cursor, rows) && k <= k'
    ensures Progress(h, k0, k', requested, cursor, rows)
  {
    TruthfulLater(h, k, k', rows);
  }

  lemma ProgressStart(h: nat -> Table, k0: nat, requested: nat)
    requires Grows(h) && requested <= U32_MAX
    ensures Progress(h, k0, k0, requested, requested, [])
  {
  }

  /** Every uid loaded by the scan that started at time k is at most cursor. */
  ghost predicate Exhausted(h: nat -> Table, k: nat, cursor: nat) {
    forall i :: 0 <= i < SLOTS ==> LoadUid(h, k, i) <= cursor
  }

  /** The scan from time k found uid, and its row does not fit beside `size` bytes and a trailer. */
  ghost predicate NoRoom(h: nat -> Table, k: nat, cursor: nat, uid: nat, slot: nat, size: nat, cap: nat) {
    && Scanned(h, k, cursor, uid, slot) && SomeHits(Loads(h, k + SLOTS, slot))
    && size + |RowText(Loaded(h, k + SLOTS, uid, slot))| + 64 > cap
  }

  /** Between k0 and k the row of the next uid was found not to fit. */
  ghost predicate StoppedFull(h: nat -> Table, k0: nat, k: nat, cursor: nat, size: nat, cap: nat) {
    exists t, uid, slot :: k0 <= t <= k && NoRoom(h, t, cursor, uid, slot, size, cap)
  }

  /** Why a page is not the last: the next row did not fit, or it came after the rows were
      listed. */
  ghost predicate HasReason(h: nat -> Table, k0: nat, k: nat, cursor: nat, size: nat, cap: nat) {
    StoppedFull(h, k0, k, cursor, size, cap) || exists t :: k0 <= t <= k && Exhausted(h, t, cursor)
  }

  /** A row is appended if it leaves room for the trailer; after the header alone it does. */
  method TryRow(h: nat -> Table, k: nat, b: Buf, uid: nat, slot: nat, row: array<char>) returns (empty: bool, fits: bool)
    requires Grows(h) && slot < SLOTS && uid <= U32_MAX && row.Length == ROW_MAX && row != b.p
    requires b.Valid() && b.p.Length >= ROW_MAX + TRAILER_RESERVE && b.len + TRAILER_RESERVE <= b.p.Length
    modifies b, b.p, row
    ensures empty <==> !SomeHits(Loads(h, k, slot))
    ensures b.Valid() && b.len + TRAILER_RESERVE <= b.p.Length
    ensures b.text == if fits && !empty then old(b.text) + RowText(Loaded(h, k, uid, slot)) else old(b.text)
    ensures old(b.len) <= 16 || empty ==> fits
    ensures !fits ==> old(b.len) + |RowText(Loaded(h, k, uid, slot))| + 64 > b.p.Length
  {
    ghost var text := RowText(Loaded(h, k, uid, slot));
    var len := FormatRow(h, k, uid, slot, row);
    assert len > 0 ==> row[..len] == text;
    empty, fits := len == 0, len == 0 || b.len + len + TRAILER_RESERVE <= b.p.Length;
    if len > 0 && fits {
      PutRow(b, row, len);
    }
  }

  datatype Turn = Stop | Full(uid: nat, slot: nat) | Took(uid: nat, slot: nat, empty: bool)

  /** One turn of the row loop. */
  method TakeTurn(h: nat -> Table, k: nat, b: Buf, cursor: nat, row: array<char>) returns (r: Turn)
    requires Grows(h) && row.Length == ROW_MAX && row != b.p
    requires b.Valid() && b.p.Length >= ROW_MAX + TRAILER_RESERVE && b.len + TRAILER_RESERVE <= b.p.Length
    modifies b, b.p, row
    ensures b.Valid() && b.len + TRAILER_RESERVE <= b.p.Length
    ensures r.Stop? ==> Exhausted(h, k, cursor)
    ensures r.Full? ==> old(b.len) > 16 && NoRoom(h, k, cursor, r.uid, r.slot, old(b.len), b.p.Length)
    ensures r.Took? ==> Scanned(h, k, cursor, r.uid, r.slot) && (r.empty <==> !SomeHits(Loads(h, k + SLOTS, r.slot)))
    ensures b.text == if r.Took? && !r.empty then old(b.text) + RowText(Loaded(h, k + SLOTS, r.uid, r.slot)) else old(b.text)
  {
    var found, uid, slot := NextUid(h, k, cursor);
    if !found {
      return Stop;
    }
    var empty, fits := TryRow(h, k + SLOTS, b, uid, slot, row);
    r := if fits then Took(uid, slot, empty) else Full(uid, slot);
  }

  /** text stands for the rows' text. */
  ghost predicate Prints(text: seq<Emit> -> string) {
    text([]) == "" && forall rows {:trigger RowsText(rows)} :: text(rows) == RowsText(rows)
  }

  /** What a turn tells: rows' are the rows with what it took. */
  ghost predicate Turned(h: nat -> Table, k: nat, cursor: nat, r: Turn, rows: seq<Emit>, rows': seq<Emit>, room: bool) {
    && (r.Stop? ==> Exhausted(h, k, cursor))
    && (r.Full? ==> !room)
    && (r.Took? ==> Scanned(h, k, cursor, r.uid, r.slot))
    && rows' == if r.Took? && SomeHits(Loads(h, k + SLOTS, r.slot)) then rows + [Loaded(h, k + SLOTS, r.uid, r.slot)] else rows
  }

  lemma TextAppend(head: string, rows: seq<Emit>, e: Emit, text: seq<Emit> -> string)
    requires Prints(text)
    ensures head + text(rows + [e]) == head + text(rows) + RowText(e)
  {
    RowsTextAppend(head, rows, e);
    assert text(rows) == RowsText(rows) && text(rows + [e]) == RowsText(rows + [e]);
  }

  method ListTurn(h: nat -> Table, k: nat, b: Buf, cursor: nat, row: array<char>, ghost head: string, rows: seq<Emit>, ghost text: seq<Emit> -> string)
    returns (r: Turn, rows': seq<Emit>)
    requires Grows(h) && row.Length == ROW_MAX && row != b.p && Prints(text)
    requires b.Valid() && b.p.Length >= ROW_MAX + TRAILER_RESERVE && b.len + TRAILER_RESERVE <= b.p.Length
    requires b.text == head + text(rows)
    modifies b, b.p, row
    ensures b.Valid() && b.len + TRAILER_RESERVE <= b.p.Length && b.text == head + text(rows')
    ensures Turned(h, k, cursor, r, rows, rows', |head + text(rows)| <= 16)
    ensures r.Full? ==> NoRoom(h, k, cursor, r.uid, r.slot, b.len, b.p.Length)
  {
    r := TakeTurn(h, k, b, cursor, row);
    rows' := rows;
    if r.Took? && !r.empty {
      var e := Loaded(h, k + SLOTS, r.uid, r.slot);
      TextAppend(head, rows, e, text);
      rows' := rows + [e];
    }
  }

  lemma ScannedNotExhausted(h: nat -> Table, k: nat, cursor: nat, uid: nat, slot: nat)
    requires Scanned(h, k, cursor, uid, slot)
    ensures !Exhausted(h, k, cursor)
  {
    assert LoadUid(h, k, slot) > cursor;
  }

  /** How the row loop stopped, its last load before time k: the rows are used up, or the next
      one does not fit and the cursor has moved. */
  ghost predicate Stopped(h: nat -> Table, k0: nat, k: nat, requested: nat, cursor: nat, exhausted: bool) {
    && (if exhausted then k >= SLOTS && Exhausted(h, k - SLOTS, cursor) else cursor > requested)
    && (cursor == requested <==> Exhausted(h, k0, requested)) && (cursor == requested ==> k == k0 + SLOTS)
  }

  /** P(k, cursor, rows) stands for the progress of a page. */
  ghost predicate Tracks(P: (nat, nat, seq<Emit>) -> bool, h: nat -> Table, k0: nat, requested: nat)
    requires Grows(h)
  {
    forall k, cursor, rows {:trigger Progress(h, k0, k, requested, cursor, rows)} :: P(k, cursor, rows) == Progress(h, k0, k, requested, cursor, rows)
  }

  lemma LoopStart(P: (nat, nat, seq<Emit>) -> bool, h: nat -> Table, k0: nat, requested: nat)
    requires Grows(h) && Tracks(P, h, k0, requested) && requested <= U32_MAX
    ensures P(k0, requested, [])
  {
    ProgressStart(h, k0, requested);
  }

  /** A turn that took a uid moves the cursor and keeps the progress. */
  lemma LoopTurn(P: (nat, nat, seq<Emit>) -> bool, h: nat -> Table, k0: nat, k: nat, requested: nat, cursor: nat, rows: seq<Emit>,
                 turn: Turn, rows': seq<Emit>, room: bool, idle: bool)
    requires Grows(h) && Tracks(P, h, k0, requested) && P(k, cursor, rows) && turn.Took? && Turned(h, k, cursor, turn, rows, rows', room)
    requires requested <= cursor && idle == Exhausted(h, k0, requested) && if cursor == requested then k == k0 else !idle
    ensures P(k + SLOTS + HOOKS, turn.uid, rows') && cursor < turn.uid <= U32_MAX && !idle
  {
    assert Progress(h, k0, k, requested, cursor, rows);
    ScannedNotExhausted(h, k, cursor, turn.uid, turn.slot);
    ProgressStep(h, k0, k, requested, cursor, rows, turn.uid, turn.slot, rows');
  }

  /** After a turn that took none, the loop has stopped as it should. */
  lemma LoopStop(P: (nat, nat, seq<Emit>) -> bool, h: nat -> Table, k0: nat, k: nat, requested: nat, cursor: nat, rows: seq<Emit>, exhausted: bool, after: nat)
    requires Grows(h) && Tracks(P, h, k0, requested) && P(k, cursor, rows) && after == k + SLOTS + (if exhausted then 0 else HOOKS)
    requires if cursor == requested then k == k0 else !Exhausted(h, k0, requested)
    requires if exhausted then Exhausted(h, k, cursor) else cursor > requested
    ensures P(after, cursor, rows) && Stopped(h, k0, after, requested, cursor, exhausted) && after >= k0 + SLOTS
  {
    assert Progress(h, k0, k, requested, cursor, rows);
    ProgressLater(h, k0, k, after, requested, cursor, rows);
  }

  lemma Reason(h: nat -> Table, k0: nat, k: nat, k': nat, cursor: nat, turn: Turn, size: nat, cap: nat,
               P: (nat, nat, seq<Emit>) -> bool, requested: nat, rows: seq<Emit>)
    requires Grows(h) && Tracks(P, h, k0, requested) && P(k, cursor, rows) && k <= k'
    requires turn.Full? ==> NoRoom(h, k, cursor, turn.uid, turn.slot, size, cap)
    ensures turn.Full? ==> StoppedFull(h, k0, k', cursor, size, cap)
  {
    assert Progress(h, k0, k, requested, cursor, rows);
  }

  /** One turn with its bookkeeping: it moves the cursor and keeps the progress, or it stops
      the loop as it should. */
  method RowTurn(h: nat -> Table, k0: nat, k: nat, b: Buf, row: array<char>, requested: nat, cursor: nat, rows: seq<Emit>,
                 ghost head: string, ghost text: seq<Emit> -> string, ghost P: (nat, nat, seq<Emit>) -> bool, ghost idle: bool)
    returns (more: bool, k': nat, cursor': nat, rows': seq<Emit>, ghost exhausted: bool)
    requires Grows(h) && row.Length == ROW_MAX && row != b.p && Prints(text) && Tracks(P, h, k0, requested) && |head| == 16
    requires b.Valid() && b.p.Length >= ROW_MAX + TRAILER_RESERVE && b.len + TRAILER_RESERVE <= b.p.Length && b.text == head + text(rows)
    requires P(k, cursor, rows) && requested <= cursor && idle == Exhausted(h, k0, requested)
    requires if cursor == requested then rows == [] && k == k0 else !idle
    modifies b, b.p, row
    ensures b.Valid() && b.len + TRAILER_RESERVE <= b.p.Length && b.text == head + text(rows') && P(k', cursor', rows')
    ensures more ==> cursor < cursor' <= U32_MAX && !idle
    ensures !more ==> cursor' == cursor && Stopped(h, k0, k', requested, cursor, exhausted) && k' >= k0 + SLOTS
    ensures !more && !exhausted ==> StoppedFull(h, k0, k', cursor, b.len, b.p.Length)
  {
    var turn;
    turn, rows' := ListTurn(h, k, b, cursor, row, head, rows, text);
    ghost var room := |head + text(rows)| <= 16;
    if turn.Took? {
      LoopTurn(P, h, k0, k, requested, cursor, rows, turn, rows', room, idle);
      return true, k + SLOTS + HOOKS, turn.uid, rows', false;
    }
    exhausted, more, cursor', k' := turn.Stop?, false, cursor, k + SLOTS + if turn.Stop? then 0 else HOOKS;
    LoopStop(P, h, k0, k, requested, cursor, rows, exhausted, k');
    Reason(h, k0, k, k', cursor, turn, b.len, b.p.Length, P, requested, rows);
  }

  /** The row loop. */
  method PutRows(h: nat -> Table, k0: nat, b: Buf, requested: nat, ghost head: string, ghost text: seq<Emit> -> string, ghost P: (nat, nat, seq<Emit>) -> bool)
    returns (rows: seq<Emit>, cursor: nat, ghost exhausted: bool, k: nat)
    requires Grows(h) && b.Valid() && b.text == head && |head| == 16 && b.p.Length >= ROW_MAX + TRAILER_RESERVE && requested <= U32_MAX
    requires Prints(text) && Tracks(P, h, k0, requested)
    modifies b, b.p
    ensures b.Valid() && b.text == head + text(rows) && b.len + TRAILER_RESERVE <= b.p.Length
    ensures P(k, cursor, rows) && Stopped(h, k0, k, requested, cursor, exhausted) && k >= k0 + SLOTS
    ensures !exhausted ==> StoppedFull(h, k0, k, cursor, b.len, b.p.Length)
  {
    ghost var idle := Exhausted(h, k0, requested);
    LoopStart(P, h, k0, requested);
    var row := new char[ROW_MAX];
    rows, cursor, k, exhausted := [], requested, k0, false;
    var more := true;
    while more
      invariant b.Valid() && b.text == head + text(rows) && b.len + TRAILER_RESERVE <= b.p.Length
      invariant P(k, cursor, rows) && requested <= cursor <= U32_MAX && row != b.p && fresh(row)
      invariant more ==> if cursor == requested then rows == [] && k == k0 else !idle
      invariant !more ==> Stopped(h, k0, k, requested, cursor, exhausted) && k >= k0 + SLOTS
      invariant !more && !exhausted ==> StoppedFull(h, k0, k, cursor, b.len, b.p.Length)
      decreases more, U32_MAX - cursor
    {
      more, k, cursor, rows, exhausted := RowTurn(h, k0, k, b, row, requested, cursor, rows, head, text, P, idle);
    }
  }

  /** What a page of a large enough buffer says: its rows, and when its cursor stays put. */
  ghost predicate PageSays(h: nat -> Table, k0: nat, k: nat, requested: nat, cursor: nat, rows: seq<Emit>, done: bool)
    requires Grows(h)
  {
    && Progress(h, k0, k, requested, cursor, rows)
    && (done ==> Complete(h, k0, requested, U32_MAX, rows))
    && (!done ==> requested < cursor || |Unclaimed(h(k))| < |Unclaimed(h(k0))|)
    && (!done && cursor == requested <==> Exhausted(h, k0, requested) && !Exhausted(h, k0 + SLOTS, requested))
  }

  /** One page. It never exceeds its buffer; a non-final page repeats its cursor exactly when
      the first scan found nothing and the next one did, which takes a slot claimed in between. */
  method FormatPage(h: nat -> Table, k0: nat, buf: array<char>, requested: nat)
    returns (len: nat, rows: seq<Emit>, cursor: nat, done: bool, k: nat)
    requires Grows(h) && requested <= U32_MAX
    modifies buf
    ensures buf.Length < ROW_MAX + TRAILER_RESERVE ==> len == 0 && buf[..] == old(buf[..])
    ensures buf.Length >= ROW_MAX + TRAILER_RESERVE ==> len <= buf.Length && buf[..len] == PageText(requested, rows, cursor, done)
    ensures buf.Length >= ROW_MAX + TRAILER_RESERVE ==> PageSays(h, k0, k, requested, cursor, rows, done)
    ensures !done ==> HasReason(h, k0, k, cursor, |Head() + RowsText(rows)|, buf.Length)
  {
    if buf.Length < ROW_MAX + TRAILER_RESERVE {
      return 0, [], requested, true, k0;
    }
    var b := new Buf(buf);
    PutHeader(b, "stats", TELEMETRY_VERSION);
    HeadLength();
    ghost var head := Head();
    rows, cursor, done, k := FillPage(h, k0, b, requested, head, RowsText);
    assert !done ==> HasReason(h, k0, k, cursor, |head + RowsText(rows)|, buf.Length);
    PutTrailer(b, requested, cursor, done, |rows|);
    len := b.len;
  }

  /** The rows of a page and the scan that decides whether it is the last. */
  method FillPage(h: nat -> Table, k0: nat, b: Buf, requested: nat, ghost head: string, ghost text: seq<Emit> -> string)
    returns (rows: seq<Emit>, cursor: nat, done: bool, k: nat)
    requires Grows(h) && b.Valid() && b.text == head && |head| == 16 && b.p.Length >= ROW_MAX + TRAILER_RESERVE && requested <= U32_MAX
    requires Prints(text)
    modifies b, b.p
    ensures b.Valid() && b.text == head + text(rows) && b.len + TRAILER_RESERVE <= b.p.Length
    ensures PageSays(h, k0, k, requested, cursor, rows, done) && cursor <= U32_MAX && |rows| <= U32_MAX
    ensures !done ==> HasReason(h, k0, k, cursor, b.len, b.p.Length)
  {
    ghost var P := (k: nat, cursor: nat, rows: seq<Emit>) => Progress(h, k0, k, requested, cursor, rows);
    ghost var exhausted;
    rows, cursor, exhausted, k := PutRows(h, k0, b, requested, head, text, P);
    done := LastScan(h, k0, k, requested, cursor, rows, exhausted);
    ReasonLater(h, k0, k, cursor, exhausted, b.len, b.p.Length);
    k := k + SLOTS;
  }

  lemma ReasonLater(h: nat -> Table, k0: nat, k: nat, cursor: nat, exhausted: bool, size: nat, cap: nat)
    requires if exhausted then k >= k0 + SLOTS && Exhausted(h, k - SLOTS, cursor) else StoppedFull(h, k0, k, cursor, size, cap)
    ensures HasReason(h, k0, k + SLOTS, cursor, size, cap)
  {
    if !exhausted {
      var t, uid, slot :| k0 <= t <= k && NoRoom(h, t, cursor, uid, slot, size, cap);
    }
  }

  /** The scan after the row loop: nothing left, or something to come back for. */
  method LastScan(h: nat -> Table, k0: nat, k1: nat, requested: nat, cursor: nat, ghost rows: seq<Emit>, ghost exhausted: bool) returns (done: bool)
    requires Grows(h) && Progress(h, k0, k1, requested, cursor, rows) && Stopped(h, k0, k1, requested, cursor, exhausted)
    requires k1 >= k0 + SLOTS
    ensures PageSays(h, k0, k1 + SLOTS, requested, cursor, rows, done)
  {
    var more, uid, slot := NextUid(h, k1, cursor);
    done := !more;
    assert done <==> Exhausted(h, k1, cursor);
    ProgressLater(h, k0, k1, k1 + SLOTS, requested, cursor, rows);
    if more && exhausted {
      FoundMeansClaimed(h, k1 - SLOTS, k1, cursor, slot);
      ClaimsOnlyGrow(h, k0, k1 - SLOTS);
    }
    if done {
      CompleteAtEnd(h, k0, k1, requested, cursor, rows);
    }
  }

  // ---------------------------------------------------------------------------
  // A repeated cursor
  // ---------------------------------------------------------------------------

  const EMPTY: Table := Table(seq(SLOTS, _ => 0), seq(SLOTS, _ => seq(HOOKS, _ => 0)))

  /** uid claims the first slot once the first scan is over. */
  function LateClaim(uid: nat): nat -> Table { k => if k < SLOTS then EMPTY else EMPTY.(uids := EMPTY.uids[0 := uid]) }

  lemma LateClaimGrows(uid: nat)
    requires 0 < uid <= U32_MAX
    ensures Grows(LateClaim(uid))
  {
    var t, u := EMPTY, EMPTY.(uids := EMPTY.uids[0 := uid]);
    assert WellFormed(t) && WellFormed(u);
    assert Later(t, t) && Later(t, u) && Later(u, u);
    var h := LateClaim(uid);
    assert forall k :: WellFormed(h(k));
  }

  lemma LateClaimScans(uid: nat)
    requires 0 < uid
    ensures Exhausted(LateClaim(uid), 0, 0) && !Exhausted(LateClaim(uid), SLOTS, 0)
  {
    assert LoadUid(LateClaim(uid), SLOTS, 0) == uid;
  }

  /** A first hit between the two scans of a page asked for from 0 makes that page repeat its
      cursor: on this history a page formatted at time 0 is non-final with cursor 0. */
  lemma CursorCanRepeat(uid: nat, k: nat, cursor: nat, rows: seq<Emit>, done: bool)
    requires 0 < uid <= U32_MAX
    ensures Grows(LateClaim(uid)) && (PageSays(LateClaim(uid), 0, k, 0, cursor, rows, done) ==> !done && cursor == 0)
  {
    LateClaimGrows(uid);
    LateClaimScans(uid);
  }

  /** Such a page, printed: no rows, the same cursor, and no final newline. */
  method FormatRepeatingPage(uid: nat, buf: array<char>) returns (len: nat)
    requires 0 < uid <= U32_MAX && buf.Length >= ROW_MAX + TRAILER_RESERVE
    modifies buf
    ensures len <= buf.Length && buf[..len] == PageText(0, [], 0, false)
  {
    LateClaimGrows(uid);
    var rows, cursor, done, k;
    len, rows, cursor, done, k := FormatPage(LateClaim(uid), 0, buf, 0);
    CursorCanRepeat(uid, k, cursor, rows, done);
    assert rows == [];
  }

  lemma CompleteAtEnd(h: nat -> Table, k0: nat, k: nat, requested: nat, cursor: nat, rows: seq<Emit>)
    requires Grows(h) && k0 <= k && Complete(h, k0, requested, cursor, rows)
    requires Exhausted(h, k, cursor)
    ensures Complete(h, k0, requested, U32_MAX, rows)
  {
    forall u: nat, s: nat | CountedAt(h(k0), u, s) && requested < u <= U32_MAX
      ensures Listed(rows, u)
    {
      NotMissed(h, k0, k, u, s);
    }
  }

  function TrailerLine(page: string, requested: string, next: string, rows: string): string {
    page + " " + (requested + " " + next + " " + rows)
  }

  lemma TrailerTokens(page: string, a: string, b: string, c: string)
    requires TokenChars(page) && TokenChars(a) && TokenChars(b) && TokenChars(c) && page != "" && a != "" && b != "" && c != ""
    requires page[0] != '#' && a[0] != '#' && b[0] != '#'
    ensures var line := TrailerLine(page, a, b, c); Tokens(line) == [page, a, b, c] && Significant(line) && LineChars(line)
  {
    ThreeWords(a, b, c);
    WordThen(page, a + " " + b + " " + c);
  }

  /** A word and a space before a line add one token. */
  lemma WordThen(word: string, tail: string)
    requires TokenChars(word) && word != "" && word[0] != '#' && LineChars(tail)
    ensures Tokens(word + " " + tail) == [word] + Tokens(tail) && Significant(word + " " + tail) && LineChars(word + " " + tail)
  {
    assert word + " " + tail == word + (" " + tail);
    TokenCons(word, " " + tail);
    SpaceSkipped(tail);
  }

  lemma TrailerIsLine(requested: nat, cursor: nat, done: bool, rows: nat, page: string, next: string)
    requires page == "page" && next == if done then "done" else HexText(cursor)
    ensures Trailer(requested, cursor, done, rows) == TrailerLine(page, HexText(requested), next, HexText(rows)) + if done then "\n" else ""
  {
  }

  /** The trailer is one line of four tokens, and its numbers read back as written. */
  lemma TrailerReadsBack(requested: nat, cursor: nat, done: bool, rows: nat, page: string, next: string)
    requires requested <= U32_MAX && cursor <= U32_MAX && rows <= U32_MAX
    requires page == "page" && next == if done then "done" else HexText(cursor)
    ensures var line := TrailerLine(page, HexText(requested), next, HexText(rows));
            Trailer(requested, cursor, done, rows) == line + (if done then "\n" else "") &&
            Tokens(line) == [page, HexText(requested), next, HexText(rows)] && Significant(line) && LineChars(line)
    ensures Prefixed(HexText(requested), U32_MAX) == Some(requested) && Prefixed(HexText(rows), U32_MAX) == Some(rows)
    ensures !done ==> Prefixed(next, U32_MAX) == Some(cursor)
  {
    HexIsToken(requested);
    HexIsToken(cursor);
    HexIsToken(rows);
    HexRoundTrip(requested, U32_MAX);
    HexRoundTrip(cursor, U32_MAX);
    HexRoundTrip(rows, U32_MAX);
    TrailerTokens(page, HexText(requested), next, HexText(rows));
    TrailerIsLine(requested, cursor, done, rows, page, next);
  }

  // ---------------------------------------------------------------------------
  // A client that follows the cursors
  // ---------------------------------------------------------------------------

  method SendCursor(cursor: nat) returns (requested: nat)
    requires cursor <= U32_MAX
    ensures requested == cursor
  {
    var r := ParseStatsAfter(PageRequest(cursor));
    CursorRoundTrip(cursor);
    requested := r.value;
  }

  /** Pages followed from cursor 0 to `done`, while slots are claimed and counters grow: the
      rows ascend strictly, every uid counted at the start is among them, and each had hits. */
  method FollowPages(h: nat -> Table, cap: nat) returns (all: seq<Emit>, k: nat)
    requires Grows(h) && cap >= ROW_MAX + TRAILER_RESERVE
    ensures Ascending(0, all, U32_MAX) && Complete(h, 0, 0, U32_MAX, all) && Truthful(h, k, all)
  {
    var cursor, buf := 0, new char[cap];
    all, k := [], 0;
    while true
      invariant cursor <= U32_MAX && fresh(buf) && buf.Length == cap
      invariant Ascending(0, all, cursor) && Complete(h, 0, 0, cursor, all) && Truthful(h, k, all)
      decreases U32_MAX - cursor, |Unclaimed(h(k))|
    {
      var requested := SendCursor(cursor);
      var len, rows, next, done, k' := FormatPage(h, k, buf, requested);
      JoinPages(h, k, k', cursor, next, if done then U32_MAX else next, all, rows);
      ClaimsOnlyGrow(h, k, k');
      all, k, cursor := all + rows, k', next;
      if done {
        return;
      }
    }
  }

  lemma JoinPages(h: nat -> Table, k: nat, k': nat, cursor: nat, next: nat, high: nat, all: seq<Emit>, rows: seq<Emit>)
    requires Grows(h) && k <= k' && cursor <= next <= high
    requires Ascending(0, all, cursor) && Complete(h, 0, 0, cursor, all) && Truthful(h, k, all)
    requires Ascending(cursor, rows, next) && Complete(h, k, cursor, high, rows) && Truthful(h, k', rows)
    ensures Ascending(0, all + rows, next) && Complete(h, 0, 0, high, all + rows) && Truthful(h, k', all + rows)
  {
    TruthfulLater(h, k, k', all);
    forall u: nat, s: nat | CountedAt(h(0), u, s) && 0 < u <= high
      ensures Listed(all + rows, u)
    {
      JoinListed(h, k, cursor, high, all, rows, u, s);
    }
  }

  lemma JoinListed(h: nat -> Table, k: nat, cursor: nat, high: nat, all: seq<Emit>, rows: seq<Emit>, u: nat, s: nat)
    requires Grows(h) && Complete(h, 0, 0, cursor, all) && Complete(h, k, cursor, high, rows)
    requires CountedAt(h(0), u, s) && 0 < u <= high
    ensures Listed(all + rows, u)
  {
    if u <= cursor {
      assert Listed(all, u);
      var i :| 0 <= i < |all| && all[i].uid == u;
      assert (all + rows)[i].uid == u;
    } else {
      assert Counted(h(0), u);
      CountedStays(h, 0, k, u);
      var s': nat :| CountedAt(h(k), u, s');
      assert Listed(rows, u);
      var i :| 0 <= i < |rows| && rows[i].uid == u;
      assert (all + rows)[|all| + i].uid == u;
    }
  }

  /** On an unchanging table the uids listed are exactly those with a non-zero counter, each
      with its counters. */
  lemma ExactWhenUnchanging(h: nat -> Table, k: nat, all: seq<Emit>, uid: nat)
    requires Grows(h) && Unchanging(h) && Complete(h, 0, 0, U32_MAX, all) && Truthful(h, k, all)
    ensures Listed(all, uid) <==> Counted(h(0), uid)
    ensures forall i :: 0 <= i < |all| ==> all[i].slot < SLOTS && h(0).uids[all[i].slot] == all[i].uid && all[i].counts == h(0).counts[all[i].slot]
  {
    assert h(k) == h(0) && WellFormed(h(0));
    if Counted(h(0), uid) {
      var s: nat :| CountedAt(h(0), uid, s);
    }
    forall i | 0 <= i < |all|
      ensures all[i].slot < SLOTS && h(0).uids[all[i].slot] == all[i].uid && all[i].counts == h(0).counts[all[i].slot]
    {
      assert Real(h, all[i]) && h(all[i].at) == h(0);
      forall j | 0 <= j < HOOKS
        ensures all[i].counts[j] == h(0).counts[all[i].slot][j]
      {
        assert h(all[i].at + j) == h(0);
      }
    }
  }
}
