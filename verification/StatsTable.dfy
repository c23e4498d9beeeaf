/** The KPM's lock-free hit counters: an open-addressing table whose slots are claimed by
    compare-and-swap and never freed. Any number of threads record hits, one atomic step at
    a time; the hash is an arbitrary function. */
module StatsTable {
  const SLOTS: nat := 160
  const HOOKS: nat := 12
  const U32: nat := 0x1_0000_0000
  const U64: nat := 0x1_0000_0000_0000_0000

  /** One record_hook_hit call for (uid, hook), at probe p. */
  datatype Pc =
    | Idle
    | Load(uid: nat, hook: nat, p: nat)
    | Cas(uid: nat, hook: nat, p: nat)
    | Reload(uid: nat, hook: nat, p: nat)
    | Add(uid: nat, hook: nat, slot: nat)
    | Refused(uid: nat, hook: nat)

  /** `first` is the hash; `accepted` counts, per uid and hook, the counter bumps. What those
      are worth in calls is `CallsConserved`. */
  datatype World = World(
    first: nat -> nat,
    uids: seq<nat>,
    counts: seq<seq<nat>>,
    accepted: map<(nat, nat), nat>,
    threads: map<nat, Pc>)

  datatype Step = Call(t: nat, uid: nat, hook: nat) | Return(t: nat) | Go(t: nat)

  function Initial(first: nat -> nat): World {
    World(first, seq(SLOTS, _ => 0), seq(SLOTS, _ => seq(HOOKS, _ => 0)), map[], map[])
  }

  /** The p-th position on a uid's probe sequence. */
  function Slot(first: nat -> nat, uid: nat, p: nat): (i: nat)
    ensures i < SLOTS
  {
    (first(uid) % SLOTS + p) % SLOTS
  }

  function Accepted(w: World, uid: nat, hook: nat): nat {
    if (uid, hook) in w.accepted then w.accepted[(uid, hook)] else 0
  }

  ghost predicate Sized(w: World) {
    |w.uids| == SLOTS && |w.counts| == SLOTS && forall i :: 0 <= i < SLOTS ==> |w.counts[i]| == HOOKS
  }

  ghost predicate Enabled(w: World, s: Step) {
    match s
    case Call(t, uid, hook) => (t in w.threads ==> w.threads[t].Idle?) && hook < HOOKS && uid < U32
    case Return(t) => t in w.threads && w.threads[t].Refused?
    case Go(t) =>
      && t in w.threads && !w.threads[t].Idle? && !w.threads[t].Refused? && Sized(w)
      && (w.threads[t].Add? ==> w.threads[t].slot < SLOTS && w.threads[t].hook < HOOKS)
  }

  /** A call for uid 0 is refused outright. */
  ghost function Apply(w: World, s: Step): World
    requires Enabled(w, s)
  {
    match s
    case Call(t, uid, hook) => w.(threads := w.threads[t := if uid == 0 then Refused(uid, hook) else Load(uid, hook, 0)])
    case Return(t) => w.(threads := w.threads[t := Idle])
    case Go(t) => Advance(w, t, w.threads[t])
  }

  function SetPc(w: World, t: nat, pc: Pc): World { w.(threads := w.threads[t := pc]) }

  /** The fetch-and-add on a 64-bit counter. */
  ghost function Bump(w: World, uid: nat, hook: nat, slot: nat): World
    requires Sized(w) && slot < SLOTS && hook < HOOKS
  {
    var c: nat := (w.counts[slot][hook] + 1) % U64;
    var row: seq<nat> := w.counts[slot][hook := c];
    w.(counts := w.counts[slot := row], accepted := w.accepted[(uid, hook) := Accepted(w, uid, hook) + 1])
  }

  ghost function Advance(w: World, t: nat, pc: Pc): World
    requires Sized(w) && (pc.Add? ==> pc.slot < SLOTS && pc.hook < HOOKS)
  {
    match pc
    case Load(uid, hook, p) =>
      if p >= SLOTS then SetPc(w, t, Refused(uid, hook))
      else
        var i := Slot(w.first, uid, p);
        if w.uids[i] == uid then SetPc(w, t, Add(uid, hook, i))
        else if w.uids[i] != 0 then SetPc(w, t, Load(uid, hook, p + 1))
        else SetPc(w, t, Cas(uid, hook, p))
    case Cas(uid, hook, p) =>
      var i := Slot(w.first, uid, p);
      if w.uids[i] == 0 then SetPc(w.(uids := w.uids[i := uid]), t, Add(uid, hook, i)) else SetPc(w, t, Reload(uid, hook, p))
    case Reload(uid, hook, p) =>
      var i := Slot(w.first, uid, p);
      if w.uids[i] == uid then SetPc(w, t, Add(uid, hook, i)) else SetPc(w, t, Load(uid, hook, p + 1))
    case Add(uid, hook, slot) =>
      SetPc(Bump(w, uid, hook, slot), t, Idle)
    case Idle => w
    case Refused(_, _) => w
  }

  ghost predicate IsRun(first: nat -> nat, ws: seq<World>, steps: seq<Step>) {
    && |ws| == |steps| + 1
    && ws[0] == Initial(first)
    && forall i :: 0 <= i < |steps| ==> Enabled(ws[i], steps[i]) && ws[i + 1] == Apply(ws[i], steps[i])
  }

  // ---------------------------------------------------------------------------
  // Invariant
  // ---------------------------------------------------------------------------

  /** No empty slot before probe p, and none of them the uid's. */
  ghost predicate Passed(first: nat -> nat, uids: seq<nat>, uid: nat, p: nat)
    requires |uids| == SLOTS
  {
    forall q :: 0 <= q < p ==> uids[Slot(first, uid, q)] != 0 && uids[Slot(first, uid, q)] != uid
  }

  /** uid sits at probe p of its sequence with no empty slot before it. */
  ghost predicate SitsAt(first: nat -> nat, uids: seq<nat>, uid: nat, i: nat, p: nat)
    requires |uids| == SLOTS
  {
    p < SLOTS && Slot(first, uid, p) == i && forall q :: 0 <= q < p ==> uids[Slot(first, uid, q)] != 0
  }

  ghost predicate NoGaps(first: nat -> nat, uids: seq<nat>)
    requires |uids| == SLOTS
  {
    forall i :: 0 <= i < SLOTS && uids[i] != 0 ==> exists p :: SitsAt(first, uids, uids[i], i, p)
  }

  ghost predicate OneSlotEach(uids: seq<nat>) {
    forall i, j :: 0 <= i < |uids| && 0 <= j < |uids| && uids[i] != 0 && uids[i] == uids[j] ==> i == j
  }

  ghost predicate Knows(first: nat -> nat, uids: seq<nat>, pc: Pc)
    requires |uids| == SLOTS
  {
    match pc
    case Idle => true
    case Load(uid, hook, p) => uid != 0 && hook < HOOKS && p <= SLOTS && Passed(first, uids, uid, p)
    case Cas(uid, hook, p) => uid != 0 && hook < HOOKS && p < SLOTS && Passed(first, uids, uid, p)
    case Reload(uid, hook, p) => uid != 0 && hook < HOOKS && p < SLOTS && Passed(first, uids, uid, p) && uids[Slot(first, uid, p)] != 0
    case Add(uid, hook, slot) => uid != 0 && hook < HOOKS && slot < SLOTS && uids[slot] == uid
    case Refused(uid, _) => uid != 0 ==> Passed(first, uids, uid, SLOTS)
  }

  /** Each slot's counters are its owner's accepted hits, in 64-bit arithmetic. */
  ghost predicate CountsMatch(w: World)
    requires Sized(w)
  {
    && (forall i, h :: 0 <= i < SLOTS && 0 <= h < HOOKS && w.uids[i] != 0 ==> w.counts[i][h] == Accepted(w, w.uids[i], h) % U64)
    && (forall i, h :: 0 <= i < SLOTS && 0 <= h < HOOKS && w.uids[i] == 0 ==> w.counts[i][h] == 0)
    && (forall u, h :: (u, h) in w.accepted ==> u in w.uids && u != 0)
  }

  ghost predicate Inv(w: World) {
    && Sized(w)
    && OneSlotEach(w.uids) && NoGaps(w.first, w.uids) && CountsMatch(w)
    && (forall t :: t in w.threads ==> Knows(w.first, w.uids, w.threads[t]))
  }

  /** Slots only ever go from empty to owned. */
  ghost predicate Grows(uids: seq<nat>, uids': seq<nat>) {
    |uids| == |uids'| == SLOTS && forall i :: 0 <= i < SLOTS && uids[i] != 0 ==> uids'[i] == uids[i]
  }

  lemma KnowsKept(first: nat -> nat, uids: seq<nat>, uids': seq<nat>, pc: Pc)
    requires Grows(uids, uids') && Knows(first, uids, pc)
    ensures Knows(first, uids', pc)
  {
  }

  /** An empty slot reached on a uid's probe sequence proves the uid owns none: an owned one
      would have been met earlier, or could not lie beyond this gap. */
  lemma NotYetOwned(first: nat -> nat, uids: seq<nat>, uid: nat, p: nat)
    requires |uids| == SLOTS && NoGaps(first, uids) && uid != 0 && p < SLOTS
    requires Passed(first, uids, uid, p) && uids[Slot(first, uid, p)] == 0
    ensures uid !in uids
  {
  }

  /** A successful compare-and-swap keeps one slot per uid and no gaps. */
  lemma ClaimKeeps(first: nat -> nat, uids: seq<nat>, uid: nat, p: nat)
    requires |uids| == SLOTS && OneSlotEach(uids) && NoGaps(first, uids) && uid != 0 && p < SLOTS
    requires Passed(first, uids, uid, p) && uids[Slot(first, uid, p)] == 0
    ensures var uids' := uids[Slot(first, uid, p) := uid];
            uid !in uids && Grows(uids, uids') && OneSlotEach(uids') && NoGaps(first, uids')
  {
    var s := Slot(first, uid, p);
    var uids' := uids[s := uid];
    NotYetOwned(first, uids, uid, p);
    forall i | 0 <= i < SLOTS && uids'[i] != 0
      ensures exists q :: SitsAt(first, uids', uids'[i], i, q)
    {
      if i == s {
        assert SitsAt(first, uids', uid, s, p);
      } else {
        var q :| SitsAt(first, uids, uids[i], i, q);
        assert SitsAt(first, uids', uids'[i], i, q);
      }
    }
  }

  lemma CountsAfterClaim(w: World, s: nat, uid: nat)
    requires Sized(w) && CountsMatch(w) && s < SLOTS && w.uids[s] == 0 && uid != 0 && uid !in w.uids
    ensures CountsMatch(w.(uids := w.uids[s := uid]))
  {
    var w' := w.(uids := w.uids[s := uid]);
    forall u, h | (u, h) in w'.accepted
      ensures u in w'.uids && u != 0
    {
      var i :| 0 <= i < |w.uids| && w.uids[i] == u;
      assert w'.uids[i] == u;
    }
    forall h | 0 <= h < HOOKS
      ensures (uid, h) !in w.accepted
    {
    }
  }

  lemma WrapStep(a: nat)
    ensures (a % U64 + 1) % U64 == (a + 1) % U64
  {
  }

  /** The bumped cell, and every other. */
  lemma CellAfterBump(w: World, uid: nat, hook: nat, slot: nat, i: nat, h: nat)
    requires Sized(w) && CountsMatch(w) && OneSlotEach(w.uids) && slot < SLOTS && hook < HOOKS && uid != 0 && w.uids[slot] == uid && i < SLOTS && h < HOOKS
    ensures var w' := Bump(w, uid, hook, slot);
            |w'.counts[i]| == HOOKS && w'.counts[i][h] == if w.uids[i] == 0 then 0 else Accepted(w', w.uids[i], h) % U64
  {
    WrapStep(Accepted(w, uid, hook));
  }

  lemma CountsAfterAdd(w: World, uid: nat, hook: nat, slot: nat)
    requires Sized(w) && CountsMatch(w) && OneSlotEach(w.uids) && slot < SLOTS && hook < HOOKS && uid != 0 && w.uids[slot] == uid
    ensures Sized(Bump(w, uid, hook, slot)) && CountsMatch(Bump(w, uid, hook, slot))
  {
    var w' := Bump(w, uid, hook, slot);
    forall i, h | 0 <= i < SLOTS && 0 <= h < HOOKS
      ensures |w'.counts[i]| == HOOKS && w'.counts[i][h] == if w.uids[i] == 0 then 0 else Accepted(w', w.uids[i], h) % U64
    {
      CellAfterBump(w, uid, hook, slot, i, h);
    }
  }

  lemma InvGo(w: World, t: nat)
    requires Inv(w) && Enabled(w, Go(t))
    ensures Inv(Apply(w, Go(t)))
  {
    var pc := w.threads[t];
    var w' := Apply(w, Go(t));
    assert Knows(w.first, w.uids, pc);
    if pc.Cas? && w.uids[Slot(w.first, pc.uid, pc.p)] == 0 {
      var s := Slot(w.first, pc.uid, pc.p);
      ClaimKeeps(w.first, w.uids, pc.uid, pc.p);
      CountsAfterClaim(w, s, pc.uid);
      ThreadsKept(w, w', t);
    } else if pc.Add? {
      CountsAfterAdd(w, pc.uid, pc.hook, pc.slot);
      ThreadsKept(w, w', t);
    } else {
      PassOne(w.first, w.uids, pc);
      ThreadsKept(w, w', t);
    }
  }

  lemma PassOne(first: nat -> nat, uids: seq<nat>, pc: Pc)
    requires |uids| == SLOTS && Knows(first, uids, pc)
    ensures (pc.Load? || pc.Reload?) && pc.p < SLOTS && uids[Slot(first, pc.uid, pc.p)] != 0 && uids[Slot(first, pc.uid, pc.p)] != pc.uid ==>
              Passed(first, uids, pc.uid, pc.p + 1)
  {
  }

  lemma ThreadsKept(w: World, w': World, t: nat)
    requires Sized(w) && Sized(w') && w'.first == w.first && Grows(w.uids, w'.uids) && t in w'.threads && w'.threads == w.threads[t := w'.threads[t]]
    requires forall r :: r in w.threads ==> Knows(w.first, w.uids, w.threads[r])
    requires Knows(w'.first, w'.uids, w'.threads[t])
    ensures forall r :: r in w'.threads ==> Knows(w'.first, w'.uids, w'.threads[r])
  {
    forall r | r in w'.threads
      ensures Knows(w'.first, w'.uids, w'.threads[r])
    {
      if r != t {
        KnowsKept(w.first, w.uids, w'.uids, w.threads[r]);
      }
    }
  }

  lemma InvStep(w: World, s: Step)
    requires Inv(w) && Enabled(w, s)
    ensures Inv(Apply(w, s)) && Apply(w, s).first == w.first && Grows(w.uids, Apply(w, s).uids)
  {
    if s.Go? {
      InvGo(w, s.t);
    }
  }

  lemma {:induction false} InvAlways(first: nat -> nat, ws: seq<World>, steps: seq<Step>, i: nat)
    requires IsRun(first, ws, steps) && i < |ws|
    ensures Inv(ws[i]) && ws[i].first == first
  {
    if i > 0 {
      InvAlways(first, ws, steps, i - 1);
      assert Enabled(ws[i - 1], steps[i - 1]) && ws[i] == Apply(ws[i - 1], steps[i - 1]);
      InvStep(ws[i - 1], steps[i - 1]);
    }
  }

  // ---------------------------------------------------------------------------
  // Over whole runs
  // ---------------------------------------------------------------------------

  /** Whatever the interleaving of first hits, a uid owns at most one slot, and no empty slot
      precedes it on its probe sequence. */
  lemma OneSlotPerUid(first: nat -> nat, ws: seq<World>, steps: seq<Step>, i: nat)
    requires IsRun(first, ws, steps) && i < |ws|
    ensures Sized(ws[i]) && OneSlotEach(ws[i].uids) && NoGaps(first, ws[i].uids)
  {
    InvAlways(first, ws, steps, i);
  }

  /** Every position is on every probe sequence. */
  lemma ProbesCover(first: nat -> nat, uid: nat, j: nat)
    requires j < SLOTS
    ensures exists p :: 0 <= p < SLOTS && Slot(first, uid, p) == j
  {
    var f := first(uid) % SLOTS;
    var p := if j >= f then j - f else j - f + SLOTS;
    assert Slot(first, uid, p) == j;
  }

  /** A call is refused only when every slot belongs to some other uid (or for uid 0). */
  lemma RefusedOnlyWhenFull(first: nat -> nat, ws: seq<World>, steps: seq<Step>, i: nat, t: nat, j: nat)
    requires IsRun(first, ws, steps) && i < |ws| && t in ws[i].threads && ws[i].threads[t].Refused? && j < SLOTS
    ensures Sized(ws[i]) && (ws[i].threads[t].uid != 0 ==> ws[i].uids[j] != 0 && ws[i].uids[j] != ws[i].threads[t].uid)
  {
    InvAlways(first, ws, steps, i);
    var uid := ws[i].threads[t].uid;
    assert Knows(first, ws[i].uids, ws[i].threads[t]);
    if uid != 0 {
      ProbesCover(first, uid, j);
      var p :| 0 <= p < SLOTS && Slot(first, uid, p) == j;
    }
  }

  lemma CountsAreAccepted(first: nat -> nat, ws: seq<World>, steps: seq<Step>, i: nat, j: nat, h: nat)
    requires IsRun(first, ws, steps) && i < |ws| && j < SLOTS && h < HOOKS
    ensures Sized(ws[i])
    ensures ws[i].counts[j][h] == if ws[i].uids[j] == 0 then 0 else Accepted(ws[i], ws[i].uids[j], h) % U64
  {
    InvAlways(first, ws, steps, i);
  }

  // ---------------------------------------------------------------------------
  // Calls made, refused, in flight and completed
  // ---------------------------------------------------------------------------

  /** The (uid, hook) a thread is recording, if any. */
  predicate Records(pc: Pc, c: (nat, nat)) { !pc.Idle? && (pc.uid, pc.hook) == c }

  ghost function InFlight(threads: map<nat, Pc>, c: (nat, nat)): set<nat> { set t | t in threads && Records(threads[t], c) }

  function Bit(b: bool): nat { if b then 1 else 0 }

  /** A step that starts a call for c, or that returns a refused one. */
  predicate Starts(s: Step, c: (nat, nat)) { s.Call? && (s.uid, s.hook) == c }

  predicate Refuses(w: World, s: Step, c: (nat, nat)) { s.Return? && s.t in w.threads && Records(w.threads[s.t], c) }

  /** Calls for c among the first n steps. */
  function Calls(steps: seq<Step>, n: nat, c: (nat, nat)): nat
    requires n <= |steps|
  {
    if n == 0 then 0 else Calls(steps, n - 1, c) + Bit(Starts(steps[n - 1], c))
  }

  /** Calls for c that came back refused among the first n steps. */
  function Refusals(ws: seq<World>, steps: seq<Step>, n: nat, c: (nat, nat)): nat
    requires n <= |steps| <= |ws|
  {
    if n == 0 then 0 else Refusals(ws, steps, n - 1, c) + Bit(Refuses(ws[n - 1], steps[n - 1], c))
  }

  /** Calls for c that returned, and not for lack of a slot. */
  ghost function Completed(ws: seq<World>, steps: seq<Step>, n: nat, c: (nat, nat)): int
    requires n <= |steps| < |ws|
  {
    Calls(steps, n, c) - Refusals(ws, steps, n, c) - |InFlight(ws[n].threads, c)|
  }

  lemma FlightAfter(threads: map<nat, Pc>, t: nat, pc: Pc, c: (nat, nat))
    ensures |InFlight(threads[t := pc], c)| + Bit(t in threads && Records(threads[t], c)) == |InFlight(threads, c)| + Bit(Records(pc, c))
  {
    var was, now := InFlight(threads, c), InFlight(threads[t := pc], c);
    assert was - {t} == now - {t};
    assert t in was <==> t in threads && Records(threads[t], c);
    assert t in now <==> Records(pc, c);
    assert |was| == |was - {t}| + Bit(t in was);
    assert |now| == |now - {t}| + Bit(t in now);
  }

  /** A call stays for the same uid and hook until it ends; a call that ends by itself has
      bumped its counter. */
  lemma AdvanceConserves(w: World, t: nat, c: (nat, nat))
    requires Enabled(w, Go(t))
    ensures var w' := Apply(w, Go(t));
            && w'.threads == w.threads[t := w'.threads[t]]
            && Accepted(w', c.0, c.1) + Bit(Records(w'.threads[t], c)) == Accepted(w, c.0, c.1) + Bit(Records(w.threads[t], c))
  {
  }

  lemma StepConserves(w: World, s: Step, c: (nat, nat))
    requires Enabled(w, s)
    ensures var w' := Apply(w, s);
            Accepted(w', c.0, c.1) + |InFlight(w'.threads, c)| + Bit(Refuses(w, s, c)) ==
            Accepted(w, c.0, c.1) + |InFlight(w.threads, c)| + Bit(Starts(s, c))
  {
    var w' := Apply(w, s);
    if s.Go? {
      AdvanceConserves(w, s.t, c);
    }
    FlightAfter(w.threads, s.t, w'.threads[s.t], c);
  }

  lemma RunStep(first: nat -> nat, ws: seq<World>, steps: seq<Step>, i: nat, c: (nat, nat))
    requires IsRun(first, ws, steps) && i < |steps|
    ensures Accepted(ws[i + 1], c.0, c.1) + |InFlight(ws[i + 1].threads, c)| + Bit(Refuses(ws[i], steps[i], c)) ==
            Accepted(ws[i], c.0, c.1) + |InFlight(ws[i].threads, c)| + Bit(Starts(steps[i], c))
  {
    assert Enabled(ws[i], steps[i]) && ws[i + 1] == Apply(ws[i], steps[i]);
    StepConserves(ws[i], steps[i], c);
  }

  /** Every call made is in flight, came back refused, or has bumped its counter once. */
  lemma {:induction false} CallsConserved(first: nat -> nat, ws: seq<World>, steps: seq<Step>, i: nat, c: (nat, nat))
    requires IsRun(first, ws, steps) && i < |ws|
    ensures Calls(steps, i, c) == Accepted(ws[i], c.0, c.1) + Refusals(ws, steps, i, c) + |InFlight(ws[i].threads, c)|
  {
    if i == 0 {
      assert InFlight(ws[0].threads, c) == {};
    } else {
      CallsConserved(first, ws, steps, i - 1, c);
      RunStep(first, ws, steps, i - 1, c);
    }
  }

  /** In every state of every run, a slot's counters are exactly its owner's completed calls,
      per hook, modulo the counter width: none is dropped, and nobody else's lands there. */
  lemma CountersAreCompletedCalls(first: nat -> nat, ws: seq<World>, steps: seq<Step>, i: nat, j: nat, h: nat)
    requires IsRun(first, ws, steps) && i < |ws| && j < SLOTS && h < HOOKS
    ensures Sized(ws[i])
    ensures ws[i].counts[j][h] == if ws[i].uids[j] == 0 then 0 else Completed(ws, steps, i, (ws[i].uids[j], h)) % U64
  {
    CountsAreAccepted(first, ws, steps, i, j, h);
    CallsConserved(first, ws, steps, i, (ws[i].uids[j], h));
  }

  /** Whoever completed a call owns a slot, and no number of completed calls is negative. */
  lemma CompletedHaveSlots(first: nat -> nat, ws: seq<World>, steps: seq<Step>, i: nat, uid: nat, h: nat)
    requires IsRun(first, ws, steps) && i < |ws|
    ensures Completed(ws, steps, i, (uid, h)) >= 0
    ensures Completed(ws, steps, i, (uid, h)) > 0 ==> uid != 0 && uid in ws[i].uids
  {
    InvAlways(first, ws, steps, i);
    CallsConserved(first, ws, steps, i, (uid, h));
  }

  ghost predicate Owes(pc: Pc) { pc.Idle? || pc.uid < U32 }

  /** Uids are 32-bit, in the table and in flight. */
  ghost predicate Narrow(w: World) {
    (forall i :: 0 <= i < |w.uids| ==> w.uids[i] < U32) && (forall t :: t in w.threads ==> Owes(w.threads[t]))
  }

  lemma NarrowStep(w: World, s: Step)
    requires Inv(w) && Narrow(w) && Enabled(w, s)
    ensures Narrow(Apply(w, s))
  {
    var w' := Apply(w, s);
    if s.Go? {
      assert Owes(w.threads[s.t]);
    }
    forall t | t in w'.threads
      ensures Owes(w'.threads[t])
    {
      assert t == s.t || (t in w.threads && w'.threads[t] == w.threads[t]);
    }
  }

  lemma {:induction false} NarrowAlways(first: nat -> nat, ws: seq<World>, steps: seq<Step>, i: nat)
    requires IsRun(first, ws, steps) && i < |ws|
    ensures Narrow(ws[i])
  {
    if i > 0 {
      NarrowAlways(first, ws, steps, i - 1);
      InvAlways(first, ws, steps, i - 1);
      assert Enabled(ws[i - 1], steps[i - 1]) && ws[i] == Apply(ws[i - 1], steps[i - 1]);
      NarrowStep(ws[i - 1], steps[i - 1]);
    }
  }

  lemma StepForgetsNothing(w: World, s: Step, uid: nat, hook: nat)
    requires Inv(w) && Enabled(w, s)
    ensures Grows(w.uids, Apply(w, s).uids) && Accepted(w, uid, hook) <= Accepted(Apply(w, s), uid, hook)
  {
    InvStep(w, s);
  }

  /** Slots are never freed and accepted hits never forgotten. */
  lemma {:induction false} NothingIsForgotten(first: nat -> nat, ws: seq<World>, steps: seq<Step>, i: nat, j: nat, uid: nat, hook: nat)
    requires IsRun(first, ws, steps) && i <= j < |ws|
    ensures Grows(ws[i].uids, ws[j].uids) && Accepted(ws[i], uid, hook) <= Accepted(ws[j], uid, hook)
  {
    if i == j {
      OneSlotPerUid(first, ws, steps, i);
    } else {
      NothingIsForgotten(first, ws, steps, i, j - 1, uid, hook);
      StepOfRun(first, ws, steps, j - 1, uid, hook);
    }
  }

  lemma StepOfRun(first: nat -> nat, ws: seq<World>, steps: seq<Step>, i: nat, uid: nat, hook: nat)
    requires IsRun(first, ws, steps) && i < |steps|
    ensures Grows(ws[i].uids, ws[i + 1].uids) && Accepted(ws[i], uid, hook) <= Accepted(ws[i + 1], uid, hook)
  {
    InvAlways(first, ws, steps, i);
    assert Enabled(ws[i], steps[i]) && ws[i + 1] == Apply(ws[i], steps[i]);
    StepForgetsNothing(ws[i], steps[i], uid, hook);
  }
}
