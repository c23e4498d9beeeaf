/** The writers' progress: the two locks are held exactly while some writer needs them, no writer
    that owns the staging is ever refused the gate, and an accepted configuration is published
    within a bounded number of its writer's own steps. */
module SeqlockWriters {
  import opened TargetSet
  import opened Policy
  import opened Seqlock
  import opened SeqlockSafety
  import opened SeqlockAttempts

  /** From the odd bump being due until the gate is opened. */
  predicate InGate(k: WriteAt) { k.BumpOdd? || Writing(k) || k.OpenGate? }

  predicate GateHolder(th: Thread) { th.Writer? && InGate(th.doing) }

  ghost predicate StagingIsHeld(w: World) { w.staging ==> exists t :: t in w.threads && HoldsStaging(w.threads[t]) }

  ghost predicate GateIsHeld(w: World) {
    && (w.gate ==> exists t :: t in w.threads && GateHolder(w.threads[t]))
    && forall t :: t in w.threads && GateHolder(w.threads[t]) ==> w.gate
  }

  /** One thread owns the staging at most. */
  ghost predicate OneOwner(w: World) {
    forall t, u :: t in w.threads && u in w.threads && HoldsStaging(w.threads[t]) && HoldsStaging(w.threads[u]) ==> t == u
  }

  ghost predicate Locks(w: World) { StagingIsHeld(w) && GateIsHeld(w) }

  // ---------------------------------------------------------------------------
  // The locks over runs
  // ---------------------------------------------------------------------------

  /** The owner of the staging finds the gate open. */
  lemma OwnerFindsGateOpen(w: World, t: nat)
    requires Locks(w) && OneOwner(w) && t in w.threads && w.threads[t] == Writer(TryGate)
    ensures !w.gate
  {
    HoldersOwn(w);
  }

  lemma HoldersOwn(w: World)
    ensures forall u :: u in w.threads && GateHolder(w.threads[u]) ==> HoldsStaging(w.threads[u]) && w.threads[u] != Writer(TryGate)
  {
  }

  /** Everybody else stays as they were. */
  ghost predicate OnlyMoves(w: World, w': World, t: nat) { t in w'.threads && w'.threads == w.threads[t := w'.threads[t]] }

  lemma WriteMoves(w: World, t: nat, k: WriteAt, parsed: Config)
    requires t in w.threads && InBounds(w, Writer(k))
    ensures OnlyMoves(w, WriteStep(w, t, k, parsed), t)
  {
  }

  lemma LocksWrite(w: World, t: nat, k: WriteAt, parsed: Config)
    requires Locks(w) && OneOwner(w) && t in w.threads && w.threads[t] == Writer(k) && InBounds(w, Writer(k))
    ensures Locks(WriteStep(w, t, k, parsed))
  {
    var w' := WriteStep(w, t, k, parsed);
    WriteMoves(w, t, k, parsed);
    StagingWrite(w, t, k, parsed);
    if k.TryGate? {
      OwnerFindsGateOpen(w, t);
    }
    GateWrite(w, t, k, parsed);
  }

  lemma StagingWrite(w: World, t: nat, k: WriteAt, parsed: Config)
    requires StagingIsHeld(w) && t in w.threads && w.threads[t] == Writer(k) && InBounds(w, Writer(k))
    ensures StagingIsHeld(WriteStep(w, t, k, parsed))
  {
    var w' := WriteStep(w, t, k, parsed);
    WriteMoves(w, t, k, parsed);
    if k.Claim? && w.staging {
      var u :| u in w.threads && HoldsStaging(w.threads[u]);
      assert w'.threads[u] == w.threads[u];
    } else if w'.staging {
      assert HoldsStaging(w'.threads[t]);
    }
  }

  lemma GateWrite(w: World, t: nat, k: WriteAt, parsed: Config)
    requires GateIsHeld(w) && OneOwner(w) && t in w.threads && w.threads[t] == Writer(k) && InBounds(w, Writer(k)) && (k.TryGate? ==> !w.gate)
    ensures GateIsHeld(WriteStep(w, t, k, parsed))
  {
    var w' := WriteStep(w, t, k, parsed);
    WriteMoves(w, t, k, parsed);
    forall u | u in w'.threads && GateHolder(w'.threads[u])
      ensures w'.gate
    {
      if u != t {
        assert w.threads[u] == w'.threads[u];
        assert k.OpenGate? ==> HoldsStaging(w.threads[t]) && HoldsStaging(w.threads[u]);
      }
    }
    if w'.gate {
      if GateHolder(w'.threads[t]) {
      } else {
        var u :| u in w.threads && GateHolder(w.threads[u]);
        assert u != t;
        assert w'.threads[u] == w.threads[u];
      }
    }
  }

  /** Steps that are not writes move one thread that owns nothing. */
  lemma LocksOther(w: World, s: Step)
    requires Locks(w) && Enabled(w, s) && !s.Write?
    ensures Locks(Apply(w, s))
  {
    var w' := Apply(w, s);
    if w'.staging {
      var u :| u in w.threads && HoldsStaging(w.threads[u]);
      assert u in w'.threads && w'.threads[u] == w.threads[u];
    }
    if w'.gate {
      var u :| u in w.threads && GateHolder(w.threads[u]);
      assert u in w'.threads && w'.threads[u] == w.threads[u];
    }
    forall u | u in w'.threads && GateHolder(w'.threads[u])
      ensures w'.gate
    {
      assert u in w.threads && w.threads[u] == w'.threads[u];
    }
  }

  lemma LocksStep(w: World, s: Step)
    requires Locks(w) && OneOwner(w) && Enabled(w, s)
    ensures Locks(Apply(w, s))
  {
    if s.Write? {
      LocksWrite(w, s.t, w.threads[s.t].doing, s.parsed);
    } else {
      LocksOther(w, s);
    }
  }

  lemma LocksTo(w: World, s: Step, w': World)
    requires Locks(w) && OneOwner(w) && StepTo(w, s, w')
    ensures Locks(w')
  {
    LocksStep(w, s);
  }

  lemma OwnerAlways(ws: seq<World>, steps: seq<Step>, i: nat)
    requires IsRun(ws, steps) && i < |ws|
    ensures OneOwner(ws[i])
  {
    InvAlways(ws, steps, i);
  }

  /** In every run the staging is taken exactly while some writer is past its claim, and the gate
      exactly while one stands between its odd bump being due and opening the gate. */
  lemma {:induction false} LocksAlways(ws: seq<World>, steps: seq<Step>, i: nat)
    requires IsRun(ws, steps) && i < |ws|
    ensures Locks(ws[i]) && OneOwner(ws[i])
  {
    OwnerAlways(ws, steps, i);
    if i > 0 {
      LocksAlways(ws, steps, i - 1);
      IsStep(ws, steps, i);
      LocksTo(ws[i - 1], steps[i - 1], ws[i]);
    }
  }

  /** So the gate never turns a writer away, and with no writer past its claim the staging is
      free for the next one. */
  lemma NeverRefused(ws: seq<World>, steps: seq<Step>, i: nat, t: nat)
    requires IsRun(ws, steps) && i < |ws|
    ensures t in ws[i].threads && ws[i].threads[t] == Writer(TryGate) ==> !ws[i].gate
    ensures (forall u :: u in ws[i].threads ==> !HoldsStaging(ws[i].threads[u])) ==> !ws[i].staging && !ws[i].gate
  {
    LocksAlways(ws, steps, i);
    if t in ws[i].threads && ws[i].threads[t] == Writer(TryGate) {
      OwnerFindsGateOpen(ws[i], t);
    }
  }

  lemma ClaimTo(w: World, t: nat, parsed: Config, w': World)
    requires Locks(w) && StepTo(w, Write(t, parsed), w') && w.threads[t] == Writer(Claim)
    ensures t in w'.threads && (w'.threads[t] == Writer(Parse) || w'.threads[t] == Idle)
    ensures w'.threads[t] == Idle ==> exists u :: u in w.threads && HoldsStaging(w.threads[u])
    ensures w'.threads[t] == Writer(Parse) ==> !w.staging
  {
  }

  lemma OwnedMeansTaken(w: World, u: nat)
    requires Inv(w) && u in w.threads && HoldsStaging(w.threads[u])
    ensures w.staging
  {
  }

  /** A call is turned away exactly while another writer is past its claim. */
  lemma TurnedAwayExactly(ws: seq<World>, steps: seq<Step>, i: nat, t: nat, parsed: Config)
    requires IsRun(ws, steps) && i < |steps| && steps[i] == Write(t, parsed) && t in ws[i].threads && ws[i].threads[t] == Writer(Claim)
    ensures t in ws[i + 1].threads && (ws[i + 1].threads[t] == Writer(Parse) || ws[i + 1].threads[t] == Idle)
    ensures ws[i + 1].threads[t] == Idle <==> exists u :: u in ws[i].threads && HoldsStaging(ws[i].threads[u])
  {
    LocksAlways(ws, steps, i);
    InvAlways(ws, steps, i);
    IsStep(ws, steps, i + 1);
    ClaimTo(ws[i], t, parsed, ws[i + 1]);
    forall u | u in ws[i].threads && HoldsStaging(ws[i].threads[u])
      ensures ws[i].staging
    {
      OwnedMeansTaken(ws[i], u);
    }
  }

  // ---------------------------------------------------------------------------
  // A writer ends
  // ---------------------------------------------------------------------------

  /** Steps a writer may still take: at most 492. */
  function WritesLeft(k: WriteAt): nat {
    match k
    case Claim => 492
    case Parse => 491
    case TryGate => 490
    case BumpOdd => 489
    case StoreUid(i) => if i <= MAX_TARGETS then 168 + 2 * (MAX_TARGETS - i) else 168
    case StoreMask(i) => if i <= MAX_TARGETS then 167 + 2 * (MAX_TARGETS - i) else 168
    case StoreNr => 167
    case StoreDefault => 166
    case Fold(i, _) => if i <= MAX_TARGETS then 5 + (MAX_TARGETS - i) else 5
    case StoreActive(_) => 4
    case BumpEven => 3
    case OpenGate => 2
    case Unclaim => 1
  }

  function Left(th: Thread): nat { if th.Writer? then WritesLeft(th.doing) else 0 }

  lemma WriteLowers(w: World, t: nat, k: WriteAt, parsed: Config)
    requires t in w.threads && InBounds(w, Writer(k)) && w.mem.nr <= MAX_TARGETS && |w.stage.targets| <= MAX_TARGETS
    requires k.StoreUid? ==> k.i <= |w.stage.targets|
    requires k.Fold? ==> k.i <= w.mem.nr
    ensures Left(WriteStep(w, t, k, parsed).threads[t]) < WritesLeft(k) <= 492
  {
  }

  lemma WriterBounds(w: World, t: nat)
    requires Inv(w) && t in w.threads && HoldsStaging(w.threads[t])
    ensures w.mem.nr <= MAX_TARGETS
    ensures var k := w.threads[t].doing; !k.Parse? && !k.OpenGate? && !k.Unclaim? ==>
              |w.stage.targets| <= MAX_TARGETS && (k.StoreUid? ==> k.i <= |w.stage.targets|) && (k.Fold? ==> k.i <= w.mem.nr)
  {
    assert WriterKnows(w, w.threads[t].doing);
  }

  lemma EdgeLowers(w: World, t: nat, k: WriteAt, parsed: Config)
    requires t in w.threads && InBounds(w, Writer(k)) && (k.Claim? || k.Parse? || k.OpenGate? || k.Unclaim?)
    ensures Left(WriteStep(w, t, k, parsed).threads[t]) < WritesLeft(k) <= 492
  {
  }

  lemma LowersTo(w: World, t: nat, parsed: Config, w': World)
    requires Inv(w) && StepTo(w, Write(t, parsed), w')
    ensures t in w.threads && t in w'.threads && Left(w'.threads[t]) < Left(w.threads[t]) <= 492
  {
    var k := w.threads[t].doing;
    if k.Claim? || k.Parse? || k.OpenGate? || k.Unclaim? {
      EdgeLowers(w, t, k, parsed);
    } else {
      WriterBounds(w, t);
      WriteLowers(w, t, k, parsed);
    }
  }

  /** Every step of a writer brings its end nearer, whatever readers and other writers do; after
      at most 492 it has returned. */
  lemma WriterTerminates(ws: seq<World>, steps: seq<Step>, i: nat, t: nat, parsed: Config)
    requires IsRun(ws, steps) && i < |steps| && steps[i] == Write(t, parsed)
    ensures t in ws[i].threads && t in ws[i + 1].threads && Left(ws[i + 1].threads[t]) < Left(ws[i].threads[t]) <= 492
  {
    InvAlways(ws, steps, i);
    IsStep(ws, steps, i + 1);
    LowersTo(ws[i], t, parsed, ws[i + 1]);
  }

  // ---------------------------------------------------------------------------
  // An accepted configuration is published
  // ---------------------------------------------------------------------------

  ghost predicate PublishedAt(w: World, n: nat, c: Config) { n < |w.published| && w.published[n] == c }

  /** Writer t has accepted c when n configurations had been published: before the even bump
      the staging holds c and nothing more is published, after it c is the next published. */
  ghost predicate Pends(w: World, t: nat, c: Config, n: nat) {
    && t in w.threads && n <= |w.published|
    && match w.threads[t]
       case Idle => PublishedAt(w, n, c)
       case Reader(_, _, _, _) => false
       case Writer(k) =>
         if k.OpenGate? || k.Unclaim? then PublishedAt(w, n, c) else !k.Claim? && !k.Parse? && w.stage == c && |w.published| == n
  }

  lemma PublishedMore(w: World, w': World, n: nat, c: Config)
    requires PublishedAt(w, n, c) && w.published <= w'.published
    ensures PublishedAt(w', n, c)
  {
  }

  /** The writer's own step. */
  lemma PendsOwn(w: World, t: nat, parsed: Config, w': World, c: Config, n: nat)
    requires Locks(w) && OneOwner(w) && Pends(w, t, c, n) && w.threads[t].Writer? && StepTo(w, Write(t, parsed), w')
    ensures Pends(w', t, c, n)
  {
    var k := w.threads[t].doing;
    if k.TryGate? {
      OwnerFindsGateOpen(w, t);
    }
    if k.OpenGate? || k.Unclaim? {
      PublishedMore(w, w', n, c);
    }
    if k.BumpEven? {
      assert w'.published[|w.published|] == c;
    }
  }

  /** Only the owner of the staging writes to it or publishes. */
  lemma StageKept(w: World, s: Step, w': World)
    requires StepTo(w, s, w')
    ensures w.published <= w'.published
    ensures w'.stage != w.stage || w'.published != w.published ==> s.Write? && HoldsStaging(w.threads[s.t])
  {
  }

  /** A step of another thread. */
  lemma PendsOther(w: World, t: nat, s: Step, w': World, c: Config, n: nat)
    requires OneOwner(w) && Pends(w, t, c, n) && s.t != t && StepTo(w, s, w')
    ensures Pends(w', t, c, n)
  {
    OthersKeep(w, s, t);
    StageKept(w, s, w');
    if PublishedAt(w, n, c) {
      PublishedMore(w, w', n, c);
    }
  }

  /** Accepting starts it. */
  lemma PendsStarts(w: World, t: nat, parsed: Config, w': World)
    requires StepTo(w, Write(t, parsed), w') && w.threads[t] == Writer(Parse) && parsed != INITIAL
    ensures Pends(w', t, parsed, |w.published|)
  {
  }

  /** From step c to step i thread t only writes: it is one call. */
  ghost predicate OneWrite(steps: seq<Step>, t: nat, c: nat, i: nat)
    requires i <= |steps|
  {
    forall m :: c <= m < i && steps[m].t == t ==> steps[m].Write?
  }

  lemma PendsTo(w: World, t: nat, s: Step, w': World, c: Config, n: nat)
    requires Locks(w) && OneOwner(w) && Pends(w, t, c, n) && StepTo(w, s, w') && (s.t == t ==> s.Write?)
    ensures Pends(w', t, c, n)
  {
    if s.t == t {
      PendsOwn(w, t, s.parsed, w', c, n);
    } else {
      PendsOther(w, t, s, w', c, n);
    }
  }

  ghost predicate Carries(ws: seq<World>, t: nat, c: Config, n: nat, k: nat)
    requires 0 < k < |ws|
  {
    Pends(ws[k - 1], t, c, n) ==> Pends(ws[k], t, c, n)
  }

  lemma PendsNext(ws: seq<World>, steps: seq<Step>, k: nat, t: nat, c: Config, n: nat)
    requires IsRun(ws, steps) && 0 < k < |ws| && (steps[k - 1].t == t ==> steps[k - 1].Write?)
    ensures Carries(ws, t, c, n, k)
  {
    IsStep(ws, steps, k);
    LocksAlways(ws, steps, k - 1);
    CarriesTo(ws, k, t, steps[k - 1], c, n);
  }

  lemma CarriesTo(ws: seq<World>, k: nat, t: nat, s: Step, c: Config, n: nat)
    requires 0 < k < |ws| && Locks(ws[k - 1]) && OneOwner(ws[k - 1]) && StepTo(ws[k - 1], s, ws[k]) && (s.t == t ==> s.Write?)
    ensures Carries(ws, t, c, n, k)
  {
    if Pends(ws[k - 1], t, c, n) {
      PendsTo(ws[k - 1], t, s, ws[k], c, n);
    }
  }

  lemma {:induction false} PendsChain(ws: seq<World>, from: nat, i: nat, t: nat, c: Config, n: nat)
    requires from <= i < |ws| && Pends(ws[from], t, c, n) && forall k :: from < k <= i ==> Carries(ws, t, c, n, k)
    ensures Pends(ws[i], t, c, n)
  {
    if from < i {
      PendsChain(ws, from, i - 1, t, c, n);
      assert Carries(ws, t, c, n, i);
    }
  }

  lemma PendsAlways(ws: seq<World>, steps: seq<Step>, c: nat, i: nat, t: nat, parsed: Config)
    requires IsRun(ws, steps) && c < i < |ws| && steps[c] == Write(t, parsed) && OneWrite(steps, t, c, i)
    requires t in ws[c].threads && ws[c].threads[t] == Writer(Parse) && parsed != INITIAL
    ensures Pends(ws[i], t, parsed, |ws[c].published|)
  {
    var n := |ws[c].published|;
    IsStep(ws, steps, c + 1);
    PendsStarts(ws[c], t, parsed, ws[c + 1]);
    forall k | c + 1 < k <= i
      ensures Carries(ws, t, parsed, n, k)
    {
      PendsNext(ws, steps, k, t, parsed, n);
    }
    PendsChain(ws, c + 1, i, t, parsed, n);
  }

  /** A configuration accepted at step c has been published when its writer has returned, as the
      one next to those in force before; and by WriterTerminates the writer does return. */
  lemma AcceptedIsPublished(ws: seq<World>, steps: seq<Step>, c: nat, i: nat, t: nat, parsed: Config)
    requires IsRun(ws, steps) && c < i < |ws| && steps[c] == Write(t, parsed) && OneWrite(steps, t, c, i)
    requires t in ws[c].threads && ws[c].threads[t] == Writer(Parse) && parsed != INITIAL
    ensures t in ws[i].threads && (ws[i].threads[t].Idle? || ws[i].threads[t].Writer?)
    ensures ws[i].threads[t].Idle? ==> |ws[c].published| < |ws[i].published| && ws[i].published[|ws[c].published|] == parsed
  {
    PendsAlways(ws, steps, c, i, t, parsed);
  }
}
