/** Recording a hit is wait-free: whatever the other threads do to the table, every step of a
    call brings its end nearer, and the call that ended has bumped the counter of its hook in
    the slot of its uid exactly once, or was refused. */
module StatsProgress {
  import opened StatsTable

  const LONGEST: nat := 3 * SLOTS + 2

  /** Atomic steps a call may still take. */
  function StepsLeft(pc: Pc): nat {
    match pc
    case Load(_, _, p) => if p <= SLOTS then 3 * (SLOTS - p) + 2 else 2
    case Cas(_, _, p) => if p <= SLOTS then 3 * (SLOTS - p) + 1 else 1
    case Reload(_, _, p) => if p <= SLOTS then 3 * (SLOTS - p) else 0
    case Add(_, _, _) => 1
    case Idle => 0
    case Refused(_, _) => 0
  }

  ghost predicate StepTo(w: World, s: Step, w': World) { Enabled(w, s) && w' == Apply(w, s) }

  /** One step of a call in a table that keeps the invariant. */
  lemma GoTo(w: World, t: nat, w': World)
    requires Inv(w) && StepTo(w, Go(t), w')
    ensures t in w'.threads && StepsLeft(w'.threads[t]) < StepsLeft(w.threads[t]) <= LONGEST
    ensures w'.threads[t].Idle? ==> w.threads[t].Add?
    ensures !w'.threads[t].Idle? ==> w'.threads[t].uid == w.threads[t].uid && w'.threads[t].hook == w.threads[t].hook
  {
    assert Knows(w.first, w.uids, w.threads[t]);
  }

  lemma IsStep(first: nat -> nat, ws: seq<World>, steps: seq<Step>, i: nat)
    requires IsRun(first, ws, steps) && i < |steps|
    ensures StepTo(ws[i], steps[i], ws[i + 1])
  {
  }

  /** Every step of every call lowers what is left of it. */
  lemma EveryStepCounts(first: nat -> nat, ws: seq<World>, steps: seq<Step>, i: nat, t: nat)
    requires IsRun(first, ws, steps) && i < |steps| && steps[i] == Go(t)
    ensures t in ws[i].threads && t in ws[i + 1].threads && StepsLeft(ws[i + 1].threads[t]) < StepsLeft(ws[i].threads[t]) <= 482
  {
    InvAlways(first, ws, steps, i);
    IsStep(first, ws, steps, i);
    GoTo(ws[i], t, ws[i + 1]);
  }

  /** Thread t's own steps between two steps of the run. */
  function Moves(steps: seq<Step>, t: nat, c: nat, i: nat): nat
    requires c <= i <= |steps|
    decreases i
  {
    if i == c then 0 else Moves(steps, t, c, i - 1) + Bit(steps[i - 1].t == t)
  }

  /** The step from w to w' adds one to the counter of the hook in the slot of the uid, and to
      no other; counters are 64 bits wide. */
  ghost predicate Counts(w: World, w': World, uid: nat, hook: nat, slot: nat) {
    && Sized(w) && Sized(w') && slot < SLOTS && hook < HOOKS && w.uids == w'.uids && w.uids[slot] == uid
    && w'.counts[slot][hook] == (w.counts[slot][hook] + 1) % 0x1_0000_0000_0000_0000
    && forall j, h :: 0 <= j < SLOTS && 0 <= h < HOOKS && (j, h) != (slot, hook) ==> w'.counts[j][h] == w.counts[j][h]
  }

  ghost predicate Bumps(w: World, w': World, uid: nat, hook: nat) { exists slot :: Counts(w, w', uid, hook, slot) }

  /** Step m is thread t's, and counts. */
  ghost predicate CountsAt(ws: seq<World>, steps: seq<Step>, t: nat, uid: nat, hook: nat, m: nat) {
    m < |steps| < |ws| && steps[m] == Go(t) && Bumps(ws[m], ws[m + 1], uid, hook)
  }

  /** Among steps c to i - 1 thread t counted a hit. */
  ghost predicate Counted(ws: seq<World>, steps: seq<Step>, t: nat, uid: nat, hook: nat, c: nat, i: nat)
    requires i <= |steps| < |ws|
  {
    exists m :: c <= m < i && CountsAt(ws, steps, t, uid, hook, m)
  }

  lemma AddCounts(w: World, t: nat, w': World)
    requires Inv(w) && StepTo(w, Go(t), w') && w.threads[t].Add?
    ensures Counts(w, w', w.threads[t].uid, w.threads[t].hook, w.threads[t].slot)
  {
    assert Knows(w.first, w.uids, w.threads[t]);
  }

  /** The call that thread t began just before step c: where it is before step i. */
  ghost predicate Stands(ws: seq<World>, steps: seq<Step>, t: nat, uid: nat, hook: nat, c: nat, i: nat)
    requires c <= i <= |steps| < |ws|
  {
    && t in ws[i].threads && Moves(steps, t, c, i) + StepsLeft(ws[i].threads[t]) <= LONGEST
    && if ws[i].threads[t].Idle? then Counted(ws, steps, t, uid, hook, c, i) else ws[i].threads[t].uid == uid && ws[i].threads[t].hook == hook
  }

  lemma CountedLater(ws: seq<World>, steps: seq<Step>, t: nat, uid: nat, hook: nat, c: nat, i: nat)
    requires i < |steps| < |ws| && Counted(ws, steps, t, uid, hook, c, i)
    ensures Counted(ws, steps, t, uid, hook, c, i + 1)
  {
    var m :| c <= m < i && CountsAt(ws, steps, t, uid, hook, m);
  }

  lemma OthersKeep(w: World, s: Step, w': World, t: nat)
    requires StepTo(w, s, w') && s.t != t && t in w.threads
    ensures t in w'.threads && w'.threads[t] == w.threads[t]
  {
  }

  lemma StandsOwn(ws: seq<World>, steps: seq<Step>, t: nat, uid: nat, hook: nat, c: nat, i: nat)
    requires c <= i < |steps| < |ws| && Inv(ws[i]) && StepTo(ws[i], steps[i], ws[i + 1]) && steps[i] == Go(t)
    requires Stands(ws, steps, t, uid, hook, c, i)
    ensures Stands(ws, steps, t, uid, hook, c, i + 1)
  {
    GoTo(ws[i], t, ws[i + 1]);
    if ws[i].threads[t].Add? {
      AddCounts(ws[i], t, ws[i + 1]);
      assert CountsAt(ws, steps, t, uid, hook, i);
    }
  }

  lemma StandsOther(ws: seq<World>, steps: seq<Step>, t: nat, uid: nat, hook: nat, c: nat, i: nat)
    requires c <= i < |steps| < |ws| && StepTo(ws[i], steps[i], ws[i + 1]) && steps[i].t != t
    requires Stands(ws, steps, t, uid, hook, c, i)
    ensures Stands(ws, steps, t, uid, hook, c, i + 1)
  {
    OthersKeep(ws[i], steps[i], ws[i + 1], t);
    if ws[i].threads[t].Idle? {
      CountedLater(ws, steps, t, uid, hook, c, i);
    }
  }

  /** From step c to step i thread t goes on with the one call. */
  ghost predicate OneCall(steps: seq<Step>, t: nat, c: nat, i: nat)
    requires i <= |steps|
  {
    forall m :: c <= m < i && steps[m].t == t ==> steps[m] == Go(t)
  }

  ghost predicate Carries(ws: seq<World>, steps: seq<Step>, t: nat, uid: nat, hook: nat, c: nat, k: nat)
    requires c <= k < |steps| < |ws|
  {
    Stands(ws, steps, t, uid, hook, c, k) ==> Stands(ws, steps, t, uid, hook, c, k + 1)
  }

  lemma CarriesTo(ws: seq<World>, steps: seq<Step>, t: nat, uid: nat, hook: nat, c: nat, k: nat)
    requires c <= k < |steps| < |ws| && Inv(ws[k]) && StepTo(ws[k], steps[k], ws[k + 1]) && (steps[k].t == t ==> steps[k] == Go(t))
    ensures Carries(ws, steps, t, uid, hook, c, k)
  {
    if Stands(ws, steps, t, uid, hook, c, k) {
      if steps[k].t == t {
        StandsOwn(ws, steps, t, uid, hook, c, k);
      } else {
        StandsOther(ws, steps, t, uid, hook, c, k);
      }
    }
  }

  lemma CarriesNext(first: nat -> nat, ws: seq<World>, steps: seq<Step>, t: nat, uid: nat, hook: nat, c: nat, k: nat)
    requires IsRun(first, ws, steps) && c <= k < |steps| && (steps[k].t == t ==> steps[k] == Go(t))
    ensures Carries(ws, steps, t, uid, hook, c, k)
  {
    InvAlways(first, ws, steps, k);
    IsStep(first, ws, steps, k);
    CarriesTo(ws, steps, t, uid, hook, c, k);
  }

  lemma {:induction false} StandsChain(ws: seq<World>, steps: seq<Step>, t: nat, uid: nat, hook: nat, c: nat, i: nat)
    requires c <= i <= |steps| < |ws| && Stands(ws, steps, t, uid, hook, c, c)
    requires forall k :: c <= k < i ==> Carries(ws, steps, t, uid, hook, c, k)
    ensures Stands(ws, steps, t, uid, hook, c, i)
    decreases i
  {
    if i > c {
      StandsChain(ws, steps, t, uid, hook, c, i - 1);
      assert Carries(ws, steps, t, uid, hook, c, i - 1);
    }
  }

  lemma StandsAlways(first: nat -> nat, ws: seq<World>, steps: seq<Step>, c: nat, i: nat, t: nat, uid: nat, hook: nat)
    requires IsRun(first, ws, steps) && 0 < c <= i < |ws| && steps[c - 1] == Call(t, uid, hook) && OneCall(steps, t, c, i)
    ensures Stands(ws, steps, t, uid, hook, c, i)
  {
    IsStep(first, ws, steps, c - 1);
    StandsStarts(ws, steps, t, uid, hook, c);
    forall k | c <= k < i
      ensures Carries(ws, steps, t, uid, hook, c, k)
    {
      CarriesNext(first, ws, steps, t, uid, hook, c, k);
    }
    StandsChain(ws, steps, t, uid, hook, c, i);
  }

  lemma StandsStarts(ws: seq<World>, steps: seq<Step>, t: nat, uid: nat, hook: nat, c: nat)
    requires 0 < c <= |steps| < |ws| && StepTo(ws[c - 1], steps[c - 1], ws[c]) && steps[c - 1] == Call(t, uid, hook)
    ensures Stands(ws, steps, t, uid, hook, c, c)
  {
  }

  /** In a call begun at step c, thread t makes at most 482 steps; when none is left it has
      counted the hit in its uid's slot, and no other end is possible but being refused. */
  lemma CallEnds(first: nat -> nat, ws: seq<World>, steps: seq<Step>, c: nat, i: nat, t: nat, uid: nat, hook: nat)
    requires IsRun(first, ws, steps) && c < i < |ws| && steps[c] == Call(t, uid, hook) && OneCall(steps, t, c + 1, i)
    ensures Moves(steps, t, c + 1, i) <= 482 && t in ws[i].threads
    ensures Moves(steps, t, c + 1, i) == 482 ==> ws[i].threads[t].Idle? || ws[i].threads[t].Refused?
    ensures ws[i].threads[t].Idle? ==> Counted(ws, steps, t, uid, hook, c + 1, i)
    ensures !ws[i].threads[t].Idle? ==> ws[i].threads[t].uid == uid && ws[i].threads[t].hook == hook
  {
    StandsAlways(first, ws, steps, c + 1, i, t, uid, hook);
    InvAlways(first, ws, steps, i);
    NoneLeft(ws[i], t);
  }

  lemma NoneLeft(w: World, t: nat)
    requires Inv(w) && t in w.threads
    ensures StepsLeft(w.threads[t]) == 0 ==> w.threads[t].Idle? || w.threads[t].Refused?
  {
    assert Knows(w.first, w.uids, w.threads[t]);
  }
}
