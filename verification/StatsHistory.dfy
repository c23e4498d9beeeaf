/** The pager's reader against the writers: however a reader's loads fall among the steps of a
    run of concurrent hits, it sees a growing history of tables, so what is proved of pages
    holds of the calls made in that run. */
module StatsHistory {
  import T = StatsTable
  import opened Wire
  import opened StatsPager
  import opened StatsPages

  function TableOf(w: T.World): Table { Table(w.uids, w.counts) }

  /** The reader's k-th load happens in state at(k) of the run, after any number of writer steps
      since the load before, or none. */
  ghost predicate Sees(h: nat -> Table, ws: seq<T.World>, at: nat -> nat) {
    && (forall k :: at(k) < |ws| && h(k) == TableOf(ws[at(k)]))
    && (forall j, k {:trigger at(j), at(k)} :: j <= k ==> at(j) <= at(k))
  }

  /** Nobody makes 2^64 calls for one uid and hook. */
  ghost predicate NoWrap(steps: seq<T.Step>) {
    forall c :: T.Calls(steps, |steps|, c) < T.U64
  }

  lemma {:induction false} CallsGrow(steps: seq<T.Step>, i: nat, n: nat, c: (nat, nat))
    requires i <= n <= |steps|
    ensures T.Calls(steps, i, c) <= T.Calls(steps, n, c)
  {
    if i < n {
      CallsGrow(steps, i, n - 1, c);
    }
  }

  lemma AcceptedFits(first: nat -> nat, ws: seq<T.World>, steps: seq<T.Step>, i: nat, uid: nat, hook: nat)
    requires T.IsRun(first, ws, steps) && NoWrap(steps) && i < |ws|
    ensures T.Accepted(ws[i], uid, hook) == T.Completed(ws, steps, i, (uid, hook)) < T.U64
  {
    T.CallsConserved(first, ws, steps, i, (uid, hook));
    CallsGrow(steps, i, |steps|, (uid, hook));
  }

  lemma StateWellFormed(first: nat -> nat, ws: seq<T.World>, steps: seq<T.Step>, i: nat)
    requires T.IsRun(first, ws, steps) && i < |ws|
    ensures WellFormed(TableOf(ws[i]))
  {
    T.InvAlways(first, ws, steps, i);
    T.NarrowAlways(first, ws, steps, i);
    forall s, h | 0 <= s < SLOTS && 0 <= h < HOOKS
      ensures ws[i].counts[s][h] < T.U64
    {
      T.CountsAreAccepted(first, ws, steps, i, s, h);
    }
  }

  lemma HitsStay(first: nat -> nat, ws: seq<T.World>, steps: seq<T.Step>, i: nat, j: nat, s: nat, h: nat)
    requires T.IsRun(first, ws, steps) && NoWrap(steps) && i <= j < |ws| && s < SLOTS && h < HOOKS
    requires T.Sized(ws[i]) && T.Sized(ws[j]) && ws[i].counts[s][h] != 0
    ensures ws[j].counts[s][h] != 0
  {
    T.CountsAreAccepted(first, ws, steps, i, s, h);
    T.CountsAreAccepted(first, ws, steps, j, s, h);
    var uid := ws[i].uids[s];
    T.NothingIsForgotten(first, ws, steps, i, j, uid, h);
    AcceptedFits(first, ws, steps, i, uid, h);
    AcceptedFits(first, ws, steps, j, uid, h);
  }

  lemma StatesLater(first: nat -> nat, ws: seq<T.World>, steps: seq<T.Step>, i: nat, j: nat)
    requires T.IsRun(first, ws, steps) && NoWrap(steps) && i <= j < |ws|
    ensures WellFormed(TableOf(ws[i])) && WellFormed(TableOf(ws[j])) && Later(TableOf(ws[i]), TableOf(ws[j]))
  {
    StateWellFormed(first, ws, steps, i);
    StateWellFormed(first, ws, steps, j);
    T.NothingIsForgotten(first, ws, steps, i, j, 0, 0);
    forall s, h | 0 <= s < SLOTS && 0 <= h < HOOKS && ws[i].counts[s][h] != 0
      ensures ws[j].counts[s][h] != 0
    {
      HitsStay(first, ws, steps, i, j, s, h);
    }
  }

  /** Every reader of every run sees a growing history. */
  lemma RunsGrow(first: nat -> nat, ws: seq<T.World>, steps: seq<T.Step>, h: nat -> Table, at: nat -> nat)
    requires T.IsRun(first, ws, steps) && NoWrap(steps) && Sees(h, ws, at)
    ensures Grows(h)
  {
    forall k: nat
      ensures WellFormed(h(k))
    {
      StateWellFormed(first, ws, steps, at(k));
    }
    forall i: nat, j: nat | i <= j
      ensures Later(h(i), h(j))
    {
      StatesLater(first, ws, steps, at(i), at(j));
    }
  }

  // ---------------------------------------------------------------------------
  // Pages of a run
  // ---------------------------------------------------------------------------

  /** By state i of the run, some call of uid was completed. */
  ghost predicate HasCompleted(ws: seq<T.World>, steps: seq<T.Step>, i: nat, uid: nat)
    requires i <= |steps| < |ws|
  {
    exists hook :: 0 <= hook < HOOKS && T.Completed(ws, steps, i, (uid, hook)) > 0
  }

  /** A uid is counted exactly when it completed a call. */
  lemma CountedIsCompleted(first: nat -> nat, ws: seq<T.World>, steps: seq<T.Step>, i: nat, uid: nat)
    requires T.IsRun(first, ws, steps) && NoWrap(steps) && i < |ws|
    ensures WellFormed(TableOf(ws[i])) && (Counted(TableOf(ws[i]), uid) <==> HasCompleted(ws, steps, i, uid))
  {
    StateWellFormed(first, ws, steps, i);
    var t := TableOf(ws[i]);
    if Counted(t, uid) {
      var slot: nat :| CountedAt(t, uid, slot);
      var hook :| 0 <= hook < HOOKS && t.counts[slot][hook] != 0;
      CountIsCompleted(first, ws, steps, i, slot, hook);
    }
    if HasCompleted(ws, steps, i, uid) {
      var hook :| 0 <= hook < HOOKS && T.Completed(ws, steps, i, (uid, hook)) > 0;
      T.CompletedHaveSlots(first, ws, steps, i, uid, hook);
      var slot :| 0 <= slot < |t.uids| && t.uids[slot] == uid;
      CountIsCompleted(first, ws, steps, i, slot, hook);
      assert t.counts[slot][hook] != 0;
      assert CountedAt(t, uid, slot);
    }
  }

  lemma CountIsCompleted(first: nat -> nat, ws: seq<T.World>, steps: seq<T.Step>, i: nat, slot: nat, hook: nat)
    requires T.IsRun(first, ws, steps) && NoWrap(steps) && i < |ws| && slot < SLOTS && hook < HOOKS
    ensures T.Sized(ws[i])
    ensures ws[i].counts[slot][hook] == if ws[i].uids[slot] == 0 then 0 else T.Completed(ws, steps, i, (ws[i].uids[slot], hook))
  {
    T.CountersAreCompletedCalls(first, ws, steps, i, slot, hook);
    AcceptedFits(first, ws, steps, i, ws[i].uids[slot], hook);
  }

  /** Pages followed from cursor 0 to `done`, the reader's loads falling anywhere among the steps
      of a run: the uids ascend strictly, every uid that had completed a call when the reading
      started is listed, and every uid listed had completed one when it ended. */
  method FollowPagesOfRun(h: nat -> Table, cap: nat, ghost first: nat -> nat, ghost ws: seq<T.World>, ghost steps: seq<T.Step>, ghost at: nat -> nat)
    returns (all: seq<Emit>, k: nat)
    requires T.IsRun(first, ws, steps) && NoWrap(steps) && Sees(h, ws, at) && cap >= ROW_MAX + TRAILER_RESERVE
    ensures Ascending(0, all, U32_MAX)
    ensures at(0) < |ws| && forall uid: nat :: HasCompleted(ws, steps, at(0), uid) ==> Listed(all, uid)
    ensures at(k) < |ws| && forall i :: 0 <= i < |all| ==> HasCompleted(ws, steps, at(k), all[i].uid)
  {
    RunsGrow(first, ws, steps, h, at);
    all, k := FollowPages(h, cap);
    ListedAreCompleted(first, ws, steps, h, at, all, k);
  }

  lemma ListedAreCompleted(first: nat -> nat, ws: seq<T.World>, steps: seq<T.Step>, h: nat -> Table, at: nat -> nat, all: seq<Emit>, k: nat)
    requires T.IsRun(first, ws, steps) && NoWrap(steps) && Sees(h, ws, at) && Grows(h)
    requires Complete(h, 0, 0, U32_MAX, all) && Truthful(h, k, all)
    ensures at(0) < |ws| && forall uid: nat :: HasCompleted(ws, steps, at(0), uid) ==> Listed(all, uid)
    ensures at(k) < |ws| && forall i :: 0 <= i < |all| ==> HasCompleted(ws, steps, at(k), all[i].uid)
  {
    assert h(0) == TableOf(ws[at(0)]) && h(k) == TableOf(ws[at(k)]);
    forall uid: nat | HasCompleted(ws, steps, at(0), uid)
      ensures Listed(all, uid)
    {
      CountedIsCompleted(first, ws, steps, at(0), uid);
      var slot: nat :| CountedAt(h(0), uid, slot);
    }
    forall i | 0 <= i < |all|
      ensures HasCompleted(ws, steps, at(k), all[i].uid)
    {
      CountedIsCompleted(first, ws, steps, at(k), all[i].uid);
    }
  }
}
