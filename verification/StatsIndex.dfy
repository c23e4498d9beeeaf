/** The kernel module's hit statistics: rows in insertion order, a sorted index over them, and
    the record-by-record read that may be resumed while rows are added. */
module StatsIndex {
  import opened Options
  import StatsPager

  const MAX_ROWS: nat := 160
  const HOOKS: nat := 12
  const U64: nat := 0x1_0000_0000_0000_0000
  const HEAD_ITEMS: nat := 3

  datatype Row = Row(uid: nat, counts: seq<nat>)

  /** The dense slot of a hook id; the other ids are not counted. */
  function SlotOf(id: nat): Option<nat> {
    if id < 10 then Some(id) else if id == 25 then Some(10) else if id == 27 then Some(11) else None
  }

  /** Exactly hooks 0 to 9, 25 and 27 are counted, and what is counted in a hook's slot is
      reported under that hook's id. */
  lemma HookSlots(id: nat, s: nat)
    ensures SlotOf(id).Some? <==> id <= 9 || id == 25 || id == 27
    ensures SlotOf(id).Some? ==> SlotOf(id).value < 12 && StatsPager.HookId(SlotOf(id).value) == id
    ensures s < 12 ==> SlotOf(StatsPager.HookId(s)) == Some(s)
  {
  }

  ghost predicate Distinct(rows: seq<Row>) {
    forall i, j :: 0 <= i < j < |rows| ==> rows[i].uid != rows[j].uid
  }

  ghost predicate Sized(rows: seq<Row>) {
    |rows| <= MAX_ROWS && forall i :: 0 <= i < |rows| ==> |rows[i].counts| == HOOKS
  }

  // ---------------------------------------------------------------------------
  // What a hit does
  // ---------------------------------------------------------------------------

  /** Linear search: the row of a uid, or the number of rows. */
  function Find(rows: seq<Row>, uid: nat): (i: nat)
    ensures i <= |rows| && (i < |rows| ==> rows[i].uid == uid) && forall j :: 0 <= j < i ==> rows[j].uid != uid
  {
    if rows == [] || rows[0].uid == uid then 0 else 1 + Find(rows[1..], uid)
  }

  function Empty(uid: nat): Row { Row(uid, seq(HOOKS, _ => 0)) }

  /** With the uid's row present, if it was or there is room. */
  function WithRow(rows: seq<Row>, uid: nat): seq<Row> {
    if Find(rows, uid) == |rows| < MAX_ROWS then rows + [Empty(uid)] else rows
  }

  function Bump(row: Row, slot: nat): Row {
    if slot < |row.counts| then row.(counts := row.counts[slot := (row.counts[slot] + 1) % U64]) else row
  }

  /** A hit of a uid on a counted hook. */
  function Hit(rows: seq<Row>, uid: nat, slot: nat): seq<Row> {
    var rows' := WithRow(rows, uid);
    var i := Find(rows', uid);
    if i < |rows'| then rows'[i := Bump(rows'[i], slot)] else rows'
  }

  lemma FindIs(rows: seq<Row>, uid: nat, i: nat)
    requires i < |rows| && Distinct(rows) && rows[i].uid == uid
    ensures Find(rows, uid) == i
  {
  }

  /** Rows are added at the end, never moved or renamed. */
  lemma HitKeeps(rows: seq<Row>, uid: nat, slot: nat)
    requires Sized(rows) && Distinct(rows)
    ensures Sized(Hit(rows, uid, slot)) && Distinct(Hit(rows, uid, slot)) && |rows| <= |Hit(rows, uid, slot)|
    ensures forall i :: 0 <= i < |rows| ==> Hit(rows, uid, slot)[i].uid == rows[i].uid
  {
    RowKeeps(rows, uid);
    var rows' := WithRow(rows, uid);
    var i := Find(rows', uid);
    if i < |rows'| {
      BumpKeeps(rows', i, slot);
    }
  }

  lemma RowKeeps(rows: seq<Row>, uid: nat)
    requires Sized(rows) && Distinct(rows)
    ensures Sized(WithRow(rows, uid)) && Distinct(WithRow(rows, uid)) && rows <= WithRow(rows, uid)
  {
  }

  lemma BumpKeeps(rows: seq<Row>, i: nat, slot: nat)
    requires Sized(rows) && Distinct(rows) && i < |rows|
    ensures var rows' := rows[i := Bump(rows[i], slot)];
            Sized(rows') && Distinct(rows') && forall j :: 0 <= j < |rows| ==> rows'[j].uid == rows[j].uid
  {
    assert Bump(rows[i], slot).uid == rows[i].uid && |Bump(rows[i], slot).counts| == HOOKS;
  }

  // ---------------------------------------------------------------------------
  // Whole runs
  // ---------------------------------------------------------------------------

  function Replay(hits: seq<(nat, nat)>): seq<Row> {
    if hits == [] then [] else Hit(Replay(hits[..|hits| - 1]), hits[|hits| - 1].0, hits[|hits| - 1].1)
  }

  function Count(hits: seq<(nat, nat)>, uid: nat, slot: nat): nat {
    if hits == [] then 0 else Count(hits[..|hits| - 1], uid, slot) + if hits[|hits| - 1] == (uid, slot) then 1 else 0
  }

  /** Each row's counters are exactly its uid's hits; who has hits and no row met a full
      table. */
  ghost predicate Accounted(hits: seq<(nat, nat)>, rows: seq<Row>)
    requires Sized(rows)
  {
    && (forall i, h :: 0 <= i < |rows| && 0 <= h < HOOKS ==> rows[i].counts[h] == Count(hits, rows[i].uid, h) % U64)
    && (forall uid: nat, h: nat :: Find(rows, uid) == |rows| && Count(hits, uid, h) > 0 ==> |rows| == 160)
  }

  lemma {:induction false} CountsAreHits(hits: seq<(nat, nat)>)
    ensures Sized(Replay(hits)) && Distinct(Replay(hits)) && Accounted(hits, Replay(hits))
  {
    if hits != [] {
      var n := |hits| - 1;
      CountsAreHits(hits[..n]);
      HitKeeps(Replay(hits[..n]), hits[n].0, hits[n].1);
      HitAccounted(hits[..n], Replay(hits[..n]), hits[n].0, hits[n].1, hits);
    }
  }

  /** A row's counter before the hit, 0 for a row that did not exist. */
  lemma HitAt(rows: seq<Row>, uid: nat, slot: nat, i: nat, h: nat)
    requires Sized(rows) && Distinct(rows) && i < |Hit(rows, uid, slot)| && h < HOOKS
    requires |Hit(rows, uid, slot)[i].counts| == HOOKS
    ensures var was := if i < |rows| then rows[i].counts[h] else 0;
            Hit(rows, uid, slot)[i].counts[h] == if Hit(rows, uid, slot)[i].uid == uid && h == slot then (was + 1) % U64 else was
  {
    var rows' := WithRow(rows, uid);
    FindIs(rows', rows'[i].uid, i);
  }

  lemma HitAccounted(hits: seq<(nat, nat)>, rows: seq<Row>, uid: nat, slot: nat, hits': seq<(nat, nat)>)
    requires Sized(rows) && Distinct(rows) && Accounted(hits, rows) && hits' == hits + [(uid, slot)]
    requires Sized(Hit(rows, uid, slot))
    ensures Accounted(hits', Hit(rows, uid, slot))
  {
    assert hits'[..|hits|] == hits;
    var rows' := Hit(rows, uid, slot);
    forall i, h | 0 <= i < |rows'| && 0 <= h < HOOKS
      ensures rows'[i].counts[h] == Count(hits', rows'[i].uid, h) % U64
    {
      RowAccounted(hits, rows, uid, slot, hits', i, h);
    }
    forall u: nat, h: nat | Find(rows', u) == |rows'| && Count(hits', u, h) > 0
      ensures |rows'| == MAX_ROWS
    {
      AbsentAccounted(hits, rows, uid, slot, hits', u, h);
    }
  }

  lemma ModStep(c: nat)
    ensures (c % U64 + 1) % U64 == (c + 1) % U64
  {
  }

  lemma CountStep(hits: seq<(nat, nat)>, uid: nat, slot: nat, hits': seq<(nat, nat)>, u: nat, h: nat)
    requires hits' == hits + [(uid, slot)]
    ensures Count(hits', u, h) == Count(hits, u, h) + if u == uid && h == slot then 1 else 0
  {
    assert hits'[..|hits|] == hits;
  }

  /** A counter before the hit: the row's, or 0 where there was none. */
  lemma WasCounted(hits: seq<(nat, nat)>, rows: seq<Row>, uid: nat, slot: nat, i: nat, h: nat)
    requires Sized(rows) && Distinct(rows) && Accounted(hits, rows) && i < |Hit(rows, uid, slot)| && h < HOOKS
    ensures (if i < |rows| then rows[i].counts[h] else 0) == Count(hits, Hit(rows, uid, slot)[i].uid, h) % U64
  {
    HitKeeps(rows, uid, slot);
    if i >= |rows| {
      assert Hit(rows, uid, slot)[i].uid == uid && Find(rows, uid) == |rows| < MAX_ROWS;
    }
  }

  lemma RowAccounted(hits: seq<(nat, nat)>, rows: seq<Row>, uid: nat, slot: nat, hits': seq<(nat, nat)>, i: nat, h: nat)
    requires Sized(rows) && Distinct(rows) && Accounted(hits, rows) && hits' == hits + [(uid, slot)]
    requires Sized(Hit(rows, uid, slot)) && i < |Hit(rows, uid, slot)| && h < HOOKS
    ensures Hit(rows, uid, slot)[i].counts[h] == Count(hits', Hit(rows, uid, slot)[i].uid, h) % U64
  {
    var u := Hit(rows, uid, slot)[i].uid;
    HitAt(rows, uid, slot, i, h);
    WasCounted(hits, rows, uid, slot, i, h);
    CountStep(hits, uid, slot, hits', u, h);
    ModStep(Count(hits, u, h));
  }

  lemma NewRow(rows: seq<Row>, uid: nat, slot: nat)
    ensures Find(rows, uid) == |rows| < MAX_ROWS ==> |Hit(rows, uid, slot)| == |rows| + 1 && Hit(rows, uid, slot)[|rows|].uid == uid
  {
    var rows' := WithRow(rows, uid);
    assert Find(rows, uid) == |rows| < MAX_ROWS ==> rows'[|rows|].uid == uid && Find(rows', uid) == |rows|;
  }

  lemma AbsentAccounted(hits: seq<(nat, nat)>, rows: seq<Row>, uid: nat, slot: nat, hits': seq<(nat, nat)>, u: nat, h: nat)
    requires Sized(rows) && Distinct(rows) && Accounted(hits, rows) && hits' == hits + [(uid, slot)]
    requires Find(Hit(rows, uid, slot), u) == |Hit(rows, uid, slot)| && Count(hits', u, h) > 0
    ensures |Hit(rows, uid, slot)| == MAX_ROWS
  {
    assert hits'[..|hits|] == hits;
    HitKeeps(rows, uid, slot);
    var rows' := Hit(rows, uid, slot);
    assert forall j :: 0 <= j < |rows| ==> rows'[j].uid == rows[j].uid && rows'[j].uid != u;
    assert Find(rows, u) == |rows|;
    if Count(hits, u, h) == 0 {
      NewRow(rows, uid, slot);
    }
  }

  // ---------------------------------------------------------------------------
  // The resumable read
  // ---------------------------------------------------------------------------

  /** Between records of a read, hits may come; a record shown into a full buffer is
      discarded and shown again. */
  datatype Event = Hits(uid: nat, slot: nat) | Show | Discarded

  /** `out` is what the reader has, each row with the index it came from. */
  datatype Reader = Reader(rows: seq<Row>, pos: nat, out: seq<(nat, Row)>)

  predicate AtEnd(r: Reader) { r.pos >= HEAD_ITEMS + MAX_ROWS }

  function React(r: Reader, e: Event): Reader {
    match e
    case Hits(uid, slot) => r.(rows := Hit(r.rows, uid, slot))
    case Discarded => r
    case Show =>
      if AtEnd(r) then r
      else if HEAD_ITEMS <= r.pos < HEAD_ITEMS + |r.rows|
      then r.(pos := r.pos + 1, out := r.out + [(r.pos - HEAD_ITEMS, r.rows[r.pos - HEAD_ITEMS])])
      else r.(pos := r.pos + 1)
  }

  function Read(r: Reader, events: seq<Event>): Reader {
    if events == [] then r else React(Read(r, events[..|events| - 1]), events[|events| - 1])
  }

  /** The k-th row the reader has is the k-th row there was. */
  ghost predicate Emitted(start: seq<Row>, out: seq<(nat, Row)>, k: nat) {
    k < |start| && k < |out| && out[k].0 == k && out[k].1.uid == start[k].uid
  }

  ghost predicate Streamed(start: seq<Row>, r: Reader) {
    && Sized(r.rows) && Distinct(r.rows) && |start| <= |r.rows|
    && (forall k :: 0 <= k < |start| ==> r.rows[k].uid == start[k].uid)
    && (forall i :: 0 <= i < |r.out| ==> i <= r.out[i].0 < |r.rows| && r.out[i].0 + HEAD_ITEMS < r.pos)
    && (forall i :: 0 <= i < |r.out| ==> r.rows[r.out[i].0].uid == r.out[i].1.uid)
    && (forall i, j :: 0 <= i < j < |r.out| ==> r.out[i].0 < r.out[j].0)
    && (forall k :: 0 <= k < |start| && k + HEAD_ITEMS < r.pos ==> Emitted(start, r.out, k))
  }

  lemma StreamedHit(start: seq<Row>, r: Reader, uid: nat, slot: nat)
    requires Streamed(start, r)
    ensures Streamed(start, r.(rows := Hit(r.rows, uid, slot)))
  {
    HitKeeps(r.rows, uid, slot);
  }

  /** The indices shown so far are fewer than the positions passed. */
  lemma ShownBefore(start: seq<Row>, r: Reader)
    requires Streamed(start, r) && HEAD_ITEMS <= r.pos
    ensures |r.out| <= r.pos - HEAD_ITEMS
    ensures r.pos - HEAD_ITEMS <= |start| ==> |r.out| == r.pos - HEAD_ITEMS
  {
    var n, k := |r.out|, r.pos - HEAD_ITEMS;
    assert n > 0 ==> n - 1 <= r.out[n - 1].0;
    assert 0 < k <= |start| ==> Emitted(start, r.out, k - 1);
  }

  lemma StreamedEmit(start: seq<Row>, r: Reader, k: nat)
    requires Streamed(start, r) && k == r.pos - HEAD_ITEMS < |r.rows| && |r.out| <= k && (k <= |start| ==> |r.out| == k)
    ensures Streamed(start, r.(pos := r.pos + 1, out := r.out + [(k, r.rows[k])]))
  {
    var out := r.out + [(k, r.rows[k])];
    forall j | 0 <= j < |start| && j <= k
      ensures Emitted(start, out, j)
    {
      assert j < k ==> Emitted(start, r.out, j);
    }
  }

  lemma StreamedShow(start: seq<Row>, r: Reader)
    requires Streamed(start, r)
    ensures Streamed(start, React(r, Show))
  {
    if HEAD_ITEMS <= r.pos {
      ShownBefore(start, r);
      if !AtEnd(r) && r.pos < HEAD_ITEMS + |r.rows| {
        StreamedEmit(start, r, r.pos - HEAD_ITEMS);
      }
    }
  }

  lemma StreamedStep(start: seq<Row>, r: Reader, e: Event)
    requires Streamed(start, r)
    ensures Streamed(start, React(r, e))
  {
    match e
    case Hits(uid, slot) => StreamedHit(start, r, uid, slot);
    case Show => StreamedShow(start, r);
    case Discarded =>
  }

  lemma {:induction false} StreamedAlways(start: seq<Row>, events: seq<Event>)
    requires Sized(start) && Distinct(start)
    ensures Streamed(start, Read(Reader(start, 0, []), events))
  {
    if events != [] {
      StreamedAlways(start, events[..|events| - 1]);
      StreamedStep(start, Read(Reader(start, 0, []), events[..|events| - 1]), events[|events| - 1]);
    }
  }

  /** However hits and re-shown records interleave, a finished read has every row that existed
      at its start exactly once, in order and before all others, and no uid twice. */
  lemma EachRowOnce(start: seq<Row>, events: seq<Event>, k: nat)
    requires Sized(start) && Distinct(start) && AtEnd(Read(Reader(start, 0, []), events))
    ensures var out := Read(Reader(start, 0, []), events).out;
            (k < |start| ==> k < |out| && out[k].1.uid == start[k].uid) &&
            forall i, j :: 0 <= i < j < |out| ==> out[i].1.uid != out[j].1.uid
  {
    StreamedAlways(start, events);
    assert k < |start| ==> Emitted(start, Read(Reader(start, 0, []), events).out, k);
  }

  function Shows(events: seq<Event>): nat {
    if events == [] then 0 else Shows(events[..|events| - 1]) + if events[|events| - 1].Show? then 1 else 0
  }

  /** A read is over after 163 records shown and not before, whatever happens in between. */
  lemma {:induction false} ReadEnds(r: Reader, events: seq<Event>)
    requires r.pos == 0
    ensures Read(r, events).pos == if Shows(events) < 163 then Shows(events) else 163
    ensures AtEnd(Read(r, events)) <==> Shows(events) >= 163
  {
    if events != [] {
      ReadEnds(r, events[..|events| - 1]);
    }
  }

  /** The record shown after the first three and n rows is the (n + 1)-st row as it is then, if
      there is one. */
  lemma ShowEmits(r: Reader, n: nat)
    requires r.pos == n + 3 < 163
    ensures React(r, Show).out == r.out + if n < |r.rows| then [(n, r.rows[n])] else []
    ensures React(r, Show).rows == r.rows
  {
  }

  // ---------------------------------------------------------------------------
  // The sorted index
  // ---------------------------------------------------------------------------

  /** `order` is a permutation of the row numbers, strictly ascending by uid. */
  ghost predicate Indexed(order: seq<nat>, rows: seq<Row>) {
    && |order| == |rows|
    && (forall i :: 0 <= i < |order| ==> order[i] < |rows|)
    && (forall i, j :: 0 <= i < j < |order| ==> rows[order[i]].uid < rows[order[j]].uid)
    && (forall k :: 0 <= k < |rows| ==> k in order)
  }

  lemma IndexedDistinct(order: seq<nat>, rows: seq<Row>)
    requires Indexed(order, rows)
    ensures Distinct(rows)
  {
    forall a, b | 0 <= a < b < |rows|
      ensures rows[a].uid != rows[b].uid
    {
      assert a in order && b in order;
      var i :| 0 <= i < |order| && order[i] == a;
      var j :| 0 <= j < |order| && order[j] == b;
    }
  }

  /** lo splits the index at uid. */
  ghost predicate SplitAt(order: seq<nat>, rows: seq<Row>, uid: nat, lo: nat)
    requires Indexed(order, rows)
  {
    && lo <= |order|
    && (forall i :: 0 <= i < lo ==> rows[order[i]].uid < uid)
    && (forall i :: lo <= i < |order| ==> uid <= rows[order[i]].uid)
  }

  /** What the split says about linear search. */
  lemma SplitFinds(order: seq<nat>, rows: seq<Row>, uid: nat, lo: nat)
    requires Indexed(order, rows) && SplitAt(order, rows, uid, lo)
    ensures lo < |order| && rows[order[lo]].uid == uid ==> Find(rows, uid) == order[lo]
    ensures !(lo < |order| && rows[order[lo]].uid == uid) ==> Find(rows, uid) == |rows|
  {
    IndexedDistinct(order, rows);
    if lo < |order| && rows[order[lo]].uid == uid {
      FindIs(rows, uid, order[lo]);
    } else {
      forall k | 0 <= k < |rows|
        ensures rows[k].uid != uid
      {
        assert k in order;
        var i :| 0 <= i < |order| && order[i] == k;
      }
    }
  }

  /** Inserting the next row number where the split is keeps the index. */
  lemma InsertKeeps(order: seq<nat>, rows: seq<Row>, uid: nat, lo: nat, row: Row)
    requires Indexed(order, rows) && SplitAt(order, rows, uid, lo) && Find(rows, uid) == |rows| && row.uid == uid
    ensures Indexed(order[..lo] + [|rows|] + order[lo..], rows + [row])
  {
    var order', rows' := order[..lo] + [|rows|] + order[lo..], rows + [row];
    SplitFinds(order, rows, uid, lo);
    forall k | 0 <= k < |rows'|
      ensures k in order'
    {
      if k < |rows| {
        assert k in order;
        var i :| 0 <= i < |order| && order[i] == k;
        assert order'[if i < lo then i else i + 1] == k;
      } else {
        assert order'[lo] == k;
      }
    }
    InsertAscends(order, rows, uid, lo, row);
  }

  lemma InsertAscends(order: seq<nat>, rows: seq<Row>, uid: nat, lo: nat, row: Row)
    requires Indexed(order, rows) && SplitAt(order, rows, uid, lo) && row.uid == uid
    requires lo < |order| ==> rows[order[lo]].uid != uid
    ensures var order', rows' := order[..lo] + [|rows|] + order[lo..], rows + [row];
            (forall i :: 0 <= i < |order'| ==> order'[i] < |rows'|) &&
            forall i, j :: 0 <= i < j < |order'| ==> rows'[order'[i]].uid < rows'[order'[j]].uid
  {
    var order', rows' := order[..lo] + [|rows|] + order[lo..], rows + [row];
    forall i, j | 0 <= i < j < |order'|
      ensures rows'[order'[i]].uid < rows'[order'[j]].uid
    {
      assert i < lo ==> order'[i] == order[i];
      assert i > lo ==> order'[i] == order[i - 1];
      assert j < lo ==> order'[j] == order[j];
      assert j > lo ==> order'[j] == order[j - 1];
    }
  }

  /** Counters do not matter to the index. */
  lemma CountsDoNotMatter(order: seq<nat>, rows: seq<Row>, i: nat, row: Row)
    requires Indexed(order, rows) && i < |rows| && row.uid == rows[i].uid
    ensures Indexed(order, rows[i := row])
  {
  }

  lemma FindAt(rows: seq<Row>, uid: nat, k: nat)
    requires k < |rows| && rows[k].uid == uid && forall j :: 0 <= j < k ==> rows[j].uid != uid
    ensures Find(rows, uid) == k
  {
  }

  lemma AddedLast(rows: seq<Row>, uid: nat, rows': seq<Row>)
    requires Find(rows, uid) == |rows| && rows' == rows + [Empty(uid)]
    ensures Find(rows', uid) == |rows|
  {
    forall j | 0 <= j < |rows|
      ensures rows'[j].uid != uid
    {
      assert rows'[j] == rows[j];
    }
    FindAt(rows', uid, |rows|);
  }

  /** What a shift by one from lo on leaves. */
  lemma Opened(was: seq<nat>, now: seq<nat>, lo: nat, n: nat)
    requires lo <= n < |was| == |now| && now[lo] == n
    requires (forall j :: 0 <= j < lo ==> now[j] == was[j]) && forall j :: lo < j <= n ==> now[j] == was[j - 1]
    ensures now[..n + 1] == was[..lo] + [n] + was[lo..n]
  {
  }

  class Stats {
    const rows: array<Row>
    const order: array<nat>
    var n: nat

    ghost predicate Valid()
      reads this, rows, order
    {
      && rows.Length == order.Length == MAX_ROWS && n <= MAX_ROWS
      && Sized(rows[..n]) && Indexed(order[..n], rows[..n])
    }

    ghost function Rows(): seq<Row>
      requires Valid()
      reads this, rows, order
    {
      rows[..n]
    }

    constructor ()
      ensures Valid() && Rows() == [] && fresh(rows) && fresh(order)
    {
      rows := new Row[MAX_ROWS](_ => Row(0, []));
      order := new nat[MAX_ROWS](_ => 0);
      n := 0;
    }

    method Bisect(uid: nat) returns (lo: nat)
      requires Valid()
      ensures SplitAt(order[..n], rows[..n], uid, lo)
    {
      lo := 0;
      var hi: nat := n;
      ghost var o, r := order[..n], rows[..n];
      while lo < hi
        invariant lo <= hi <= n
        invariant forall i :: 0 <= i < lo ==> r[o[i]].uid < uid
        invariant forall i :: hi <= i < n ==> uid <= r[o[i]].uid
      {
        var mid := lo + (hi - lo) / 2;
        assert o[mid] == order[mid] && o[mid] < |r|;
        if rows[order[mid]].uid < uid {
          lo := mid + 1;
        } else {
          hi := mid;
        }
      }
    }

    /** The memmove that opens a gap at lo, and the new row number in it. */
    method InsertOrder(lo: nat)
      requires n < MAX_ROWS == order.Length && lo <= n
      modifies order
      ensures order[..n + 1] == old(order[..lo]) + [n] + old(order[lo..n])
    {
      var i := n;
      ghost var was := order[..];
      while i > lo
        invariant lo <= i <= n
        invariant forall j :: 0 <= j <= i < MAX_ROWS && j < n ==> order[j] == old(order[j])
        invariant forall j :: i < j <= n ==> order[j] == old(order[j - 1])
      {
        order[i] := order[i - 1];
        i := i - 1;
      }
      order[lo] := n;
      Opened(was, order[..], lo, n);
      assert was[..lo] == old(order[..lo]) && was[lo..n] == old(order[lo..n]) && order[..][..n + 1] == order[..n + 1];
    }

    /** find_or_add_stats_row: the row linear search would find, or a new last one; none only
        when the table is full of other uids. */
    method FindOrAdd(uid: nat) returns (r: Option<nat>)
      requires Valid()
      modifies this, rows, order
      ensures Valid() && Rows() == WithRow(old(Rows()), uid)
      ensures r == if Find(Rows(), uid) < |Rows()| then Some(Find(Rows(), uid)) else None
    {
      var lo := Bisect(uid);
      ghost var o, was := order[..n], rows[..n];
      SplitFinds(o, was, uid, lo);
      if lo < n && rows[order[lo]].uid == uid {
        return Some(order[lo]);
      }
      if n >= MAX_ROWS {
        return None;
      }
      AddRow(uid, lo);
      AddedLast(was, uid, rows[..n]);
      r := Some(n - 1);
    }

    method AddRow(uid: nat, lo: nat)
      requires Valid() && n < MAX_ROWS && SplitAt(order[..n], rows[..n], uid, lo) && Find(rows[..n], uid) == n
      modifies this`n, rows, order
      ensures Valid() && Rows() == old(Rows()) + [Empty(uid)]
    {
      ghost var o, was := order[..n], rows[..n];
      InsertKeeps(o, was, uid, lo, Empty(uid));
      InsertOrder(lo);
      rows[n] := Empty(uid);
      n := n + 1;
      assert rows[..n] == was + [Empty(uid)];
      assert order[..n] == o[..lo] + [|was|] + o[lo..];
    }

    method RecordHit(uid: nat, hook: nat)
      requires Valid()
      modifies this, rows, order
      ensures Valid()
      ensures Rows() == match SlotOf(hook) { case None => old(Rows()) case Some(slot) => Hit(old(Rows()), uid, slot) }
    {
      var slot := SlotOf(hook);
      if slot.None? {
        return;
      }
      var r := FindOrAdd(uid);
      if r.Some? {
        ghost var now := rows[..n];
        var row := rows[r.value];
        CountsDoNotMatter(order[..n], now, r.value, Bump(row, slot.value));
        rows[r.value] := row.(counts := row.counts[slot.value := (row.counts[slot.value] + 1) % U64]);
        assert rows[..n] == now[r.value := Bump(row, slot.value)];
      }
    }

    /** One record of the read: the copy taken under the lock, nothing past the last row. */
    method ShowRow(item: nat) returns (r: Option<Row>)
      requires Valid()
      ensures r == if 3 <= item < 3 + |Rows()| then Some(Rows()[item - 3]) else None
    {
      if item < HEAD_ITEMS || item - HEAD_ITEMS >= n {
        return None;
      }
      return Some(rows[item - HEAD_ITEMS]);
    }
  }
}
