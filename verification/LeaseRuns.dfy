/** Every step keeps the lease's history, and what that gives over whole runs: who is
    answered RAW, when, with which references held, and which nonces can come back. */
module LeaseRuns {
  import opened Options
  import opened DiagScope
  import opened LeaseMachine
  import opened LeaseInvariant

  ghost predicate History(w: World) {
    && w.clock <= U64_MAX
    && LeaseFollowsLog(w)
    && AllRawJustified(w.log, w.maxLease)
    && ClearsOwnNonce(w.log)
    && NonceNotReused(w.log)
  }

  lemma HistorySame(w: World, w': World)
    requires History(w) && w'.lease == w.lease && w'.marks == w.marks && w'.log == w.log && w'.maxLease == w.maxLease
    requires w.clock <= w'.clock <= U64_MAX
    ensures History(w')
  {
  }

  /** The grant that justifies an answer given now, and that it outlives it. */
  lemma RawIsJustified(w: World, l: Life, at: Reading, all: seq<Event>)
    requires LeaseFollowsLog(w) && LeaseAnchored(w) && l in w.threads && w.threads[l].addr in w.objects && w.objects[w.threads[l].addr].life == l
    requires LiveSince(w, at) && w.lease.identity == Some(w.threads[l].addr) && all == w.log + [RawEv(l, at.uid, at.time)]
    ensures Justified(all, |w.log|, w.marks, w.maxLease) && ActiveAt(all, |all|, w.marks, w.maxLease)
  {
    assert all[|w.log|] == RawEv(l, at.uid, at.time);
  }

  lemma HistoryRaw(w: World, l: Life, at: Reading)
    requires History(w) && LeaseAnchored(w) && l in w.threads && w.threads[l].addr in w.objects && w.objects[w.threads[l].addr].life == l
    requires LiveSince(w, at) && w.lease.identity == Some(w.threads[l].addr)
    ensures History(w.(log := w.log + [RawEv(l, at.uid, at.time)]))
  {
    var e, m := RawEv(l, at.uid, at.time), w.marks;
    var all := w.log + [e];
    RawIsJustified(w, l, at, all);
    JustifiedAfterRaw(w.log, e, m, w.maxLease);
    NoncesKept(w.log, [e], w.lease.nonce);
  }

  lemma HistoryRegister(w: World, nonce: nat, at: Reading, held: Addr, o: PidObject)
    requires History(w) && w.lease.phase == Armed && RegKnows(w, nonce, at) && o.number == w.lease.tid
    ensures var e := RegisteredEv(nonce, o.life, o.number, at.uid, at.time);
            History(w.(lease := w.lease.(identity := Some(held), phase := Registered), log := w.log + [e], marks := w.marks.(reg := |w.log|)))
  {
    var e := RegisteredEv(nonce, o.life, o.number, at.uid, at.time);
    var all := w.log + [e];
    assert all[|w.log|] == e;
    JustifiedKept(w.log, [e], w.maxLease);
    NoncesKept(w.log, [e], w.lease.nonce);
    assert RegisteredAt(all, |all|, w.marks.(reg := |w.log|), w.maxLease);
  }

  lemma HistoryActivate(w: World, nonce: nat)
    requires History(w) && ActivateEffect(w.lease, nonce, w.clock).lease != w.lease
    ensures History(w.(lease := ActivateEffect(w.lease, nonce, w.clock).lease,
                       log := w.log + [ActivatedEv(nonce, w.clock)], marks := w.marks.(act := |w.log|)))
  {
    var e := ActivatedEv(nonce, w.clock);
    var all := w.log + [e];
    assert all[|w.log|] == e;
    DeadlinesDoNotWrap(w.lease, w.maxLease, 0, 0, nonce, 0, w.clock);
    JustifiedKept(w.log, [e], w.maxLease);
    NoncesKept(w.log, [e], w.lease.nonce);
    assert ActiveAt(all, |all|, w.marks.(act := |w.log|), w.maxLease);
  }

  /** Appending the end of the current grant, if it has one. */
  lemma HistoryEnd(w: World, cause: Cause)
    requires History(w)
    requires cause == Revoked(w.lease.nonce) || cause == Closed(w.lease.nonce) || cause == Expired
    ensures History(w.(lease := Cleared(w.lease),
                       log := w.log + (if w.lease.phase == Released then [] else [ClearedEv(w.lease.nonce, cause, w.clock)])))
  {
    var more := if w.lease.phase == Released then [] else [ClearedEv(w.lease.nonce, cause, w.clock)];
    JustifiedKept(w.log, more, w.maxLease);
    NoncesKept(w.log, more, w.lease.nonce);
  }

  lemma HistoryArm(w: World, tid: nat, uid: nat, nonce: nat, duration: nat)
    requires History(w) && w.lease.phase == Released && nonce != w.lease.nonce && ArmArgs(w.maxLease, tid, uid, nonce, duration)
    requires w.clock + w.maxLease <= U64_MAX
    ensures History(w.(lease := Lease(None, tid, uid, Armed, nonce, w.clock + w.maxLease, duration),
                       log := w.log + [ArmedEv(nonce, tid, uid, duration, w.clock)], marks := w.marks.(arm := |w.log|)))
  {
    var e := ArmedEv(nonce, tid, uid, duration, w.clock);
    var all := w.log + [e];
    assert all[|w.log|] == e;
    JustifiedKept(w.log, [e], w.maxLease);
    NoncesAfterArm(w.log, e, w.lease.nonce);
  }

  /** Arming over an expired grant ends that one first. */
  lemma HistoryArmCommand(w: World, l: Life, c: Command, f: nat)
    requires History(w) && l in w.threads && CmdKnows(w, c) && c.ArmCmd? && CommandEffect(w.lease, w.maxLease, c, w.clock).lease != w.lease
    ensures History(CommandBody(w, l, c, f))
  {
    DeadlinesDoNotWrap(w.lease, w.maxLease, c.tid, c.uid, c.nonce, c.duration, w.clock);
    HistoryEnd(w, Expired);
    var ended := w.(lease := Cleared(w.lease),
                    log := w.log + (if w.lease.phase == Released then [] else [ClearedEv(w.lease.nonce, Expired, w.clock)]));
    HistoryArm(ended, c.tid, c.uid, c.nonce, c.duration);
    assert CommandBody(w, l, c, f).log == ended.log + [ArmedEv(c.nonce, c.tid, c.uid, c.duration, w.clock)];
  }

  lemma HistoryCommand(w: World, l: Life, c: Command, f: nat)
    requires History(w) && l in w.threads && CmdKnows(w, c)
    ensures History(CommandBody(w, l, c, f))
  {
    var w' := CommandBody(w, l, c, f);
    var e := CommandEffect(w.lease, w.maxLease, c, w.clock);
    if e.lease == w.lease {
      HistorySame(w, w');
      return;
    }
    match c
    case ArmCmd(tid, uid, nonce, duration) => HistoryArmCommand(w, l, c, f);
    case ActivateCmd(nonce) => HistoryActivate(w, nonce);
    case RevokeCmd(nonce) => HistoryEnd(w, Revoked(nonce));
    case CloseCmd(nonce) => HistoryEnd(w, Closed(nonce));
    case SnapshotCmd => HistoryEnd(w, Expired);
  }

  lemma HistoryStep(w: World, s: Step)
    requires Inv(w) && Enabled(w, s)
    ensures History(Apply(w, s))
  {
    var w' := Apply(w, s);
    if s.Advance? && w.threads[s.life].pc.Inside? {
      HistoryInside(w, s.life, w.threads[s.life].pc.work, s.found);
    } else {
      HistorySame(w, w');
    }
  }

  lemma HistoryAdopt(w: World, l: Life, n: nat, at: Reading)
    requires History(w) && l in w.threads && w.threads[l].addr in w.objects && RegKnows(w, n, at)
    ensures History(AdoptBody(w, l, n, at, w.threads[l].addr))
  {
    var a := w.threads[l].addr;
    if RegisterAdopt(w.lease, a, w.objects[a].number).taken {
      HistoryRegister(w, n, at, a, w.objects[a]);
    } else {
      HistorySame(w, AdoptBody(w, l, n, at, a));
    }
  }

  lemma HistoryInside(w: World, l: Life, k: Work, found: bool)
    requires History(w) && Anchored(w) && Enabled(w, Advance(l, found)) && w.threads[l].pc == Inside(k) && Knows(w, l)
    ensures History(WorkStep(w, l, k, found))
  {
    assert ThreadAnchored(w.objects, l, w.threads[l]);
    match k
    case CurUnlock(at, allowed) => if allowed { HistoryAnswer(w, l, at, found); } else { HistoryQuiet(w, l, k, found); }
    case RegAdopt(n, at) => HistoryAdopt(w, l, n, at);
    case CmdBody(c, f) => HistoryCommand(w, l, c, f);
    case _ => HistoryQuiet(w, l, k, found);
  }

  lemma HistoryAnswer(w: World, l: Life, at: Reading, found: bool)
    requires l in w.threads && History(w) && LeaseAnchored(w) && ThreadAnchored(w.objects, l, w.threads[l]) && LiveSince(w, at)
    requires Enabled(w, Advance(l, found)) && w.threads[l].pc == Inside(CurUnlock(at, true)) && w.lease.identity == Some(w.threads[l].addr)
    ensures History(WorkStep(w, l, CurUnlock(at, true), found))
  {
    HistoryRaw(w, l, at);
    HistorySame(w.(log := w.log + [RawEv(l, at.uid, at.time)]), WorkStep(w, l, CurUnlock(at, true), found));
  }

  /** Sections that leave no event. */
  lemma HistoryQuiet(w: World, l: Life, k: Work, found: bool)
    requires History(w) && Enabled(w, Advance(l, found)) && w.threads[l].pc == Inside(k)
    requires !(k.CurUnlock? && k.allowed) && !k.RegAdopt? && !k.CmdBody?
    ensures History(WorkStep(w, l, k, found))
  {
    HistorySame(w, WorkStep(w, l, k, found));
  }

  // Knows ---------------------------------------------------------------------

  /** What a thread knows survives a step of somebody else: outside the gate it never
      spoke of the lease, inside it nobody else could touch it. */
  lemma KnowsOther(w: World, w': World, r: Life)
    requires r in w.threads && r in w'.threads && w.threads[r].pc == w'.threads[r].pc && w.threads[r].addr == w'.threads[r].addr && Knows(w, r)
    requires w.maxLease == w'.maxLease && w.clock <= w'.clock && w.log <= w'.log
    requires w.threads[r].pc.Inside? ==> w.lease == w'.lease && w.marks == w'.marks
    ensures Knows(w', r)
  {
    match w.threads[r].pc
    case Leaving(c, _, o) => DoneKept(w, w', c, o);
    case Inside(k) => if k.CmdUnlock? { DoneKept(w, w', k.cmd, k.outcome); }
    case Waiting(_) =>
    case Idle =>
  }

  lemma DoneKept(w: World, w': World, c: Command, o: Outcome)
    requires CmdDone(w, c, o) && w.log <= w'.log
    ensures CmdDone(w', c, o)
  {
    if c.ArmCmd? && o == Ok {
      ArmedEverKept(w.log, w'.log[|w.log|..], c.nonce);
      assert w.log + w'.log[|w.log|..] == w'.log;
    }
  }

  lemma ArmOkWasArmed(w: World, l: Life, c: Command, f: nat)
    requires History(w) && l in w.threads && CmdKnows(w, c)
    ensures CmdDone(CommandBody(w, l, c, f), c, CommandEffect(w.lease, w.maxLease, c, w.clock).outcome)
  {
    var e := CommandEffect(w.lease, w.maxLease, c, w.clock);
    var w' := CommandBody(w, l, c, f);
    if c.ArmCmd? && e.outcome == Ok {
      if e.lease == w.lease {
        assert w'.log == w.log;
        assert w.log[w.marks.arm].ArmedEv? && w.log[w.marks.arm].nonce == c.nonce;
      } else {
        assert w'.log[|w'.log| - 1] == ArmedEv(e.lease.nonce, e.lease.tid, e.lease.uid, e.lease.duration, w.clock);
      }
    }
  }

  /** No step rewrites the log, the lease limit or turns the clock back. */
  ghost predicate Grows(w: World, w': World) {
    w.log <= w'.log && w.maxLease == w'.maxLease && w.clock <= w'.clock
  }

  lemma WorkGrows(w: World, l: Life, k: Work, found: bool)
    requires Enabled(w, Advance(l, found)) && w.threads[l].pc == Inside(k)
    ensures Grows(w, WorkStep(w, l, k, found))
  {
  }

  lemma LogGrows(w: World, s: Step)
    requires Enabled(w, s)
    ensures Grows(w, Apply(w, s))
  {
    if s.Advance? && w.threads[s.life].pc.Inside? {
      WorkGrows(w, s.life, w.threads[s.life].pc.work, s.found);
    }
  }

  lemma KnowsCurrent(w: World, l: Life, k: Work, found: bool)
    requires History(w) && Enabled(w, Advance(l, found)) && w.threads[l].pc == Inside(k) && Knows(w, l) && ThreadAnchored(w.objects, l, w.threads[l])
    requires k.CurCheck? || k.CurGet? || k.CurCompare? || k.CurPut? || k.CurUnlock?
    ensures Knows(WorkStep(w, l, k, found), l)
  {
  }

  lemma KnowsRegister(w: World, l: Life, k: Work, found: bool)
    requires History(w) && Enabled(w, Advance(l, found)) && w.threads[l].pc == Inside(k) && Knows(w, l) && ThreadAnchored(w.objects, l, w.threads[l])
    requires k.RegCheck? || k.RegGet? || k.RegAdopt? || k.RegPut? || k.RegUnlock?
    ensures Knows(WorkStep(w, l, k, found), l)
  {
  }

  lemma KnowsInside(w: World, l: Life, k: Work, found: bool)
    requires History(w) && Anchored(w) && Enabled(w, Advance(l, found)) && w.threads[l].pc == Inside(k) && Knows(w, l)
    ensures Knows(WorkStep(w, l, k, found), l)
  {
    assert ThreadAnchored(w.objects, l, w.threads[l]);
    if k.CmdBody? {
      ArmOkWasArmed(w, l, k.cmd, k.file);
    } else if k.RegCheck? || k.RegGet? || k.RegAdopt? || k.RegPut? || k.RegUnlock? {
      KnowsRegister(w, l, k, found);
    } else if !k.CmdUnlock? {
      KnowsCurrent(w, l, k, found);
    }
  }

  /** Only the owner of the gate changes the lease. */
  lemma OthersKeepLease(w: World, s: Step, r: Life)
    requires Exclusive(w) && Enabled(w, s) && r in w.threads && w.threads[r].pc.Inside?
    requires s.Advance? ==> s.life != r
    ensures Apply(w, s).lease == w.lease && Apply(w, s).marks == w.marks
  {
  }

  lemma KnowsOutside(w: World, l: Life, found: bool)
    requires Enabled(w, Advance(l, found)) && Knows(w, l) && !w.threads[l].pc.Inside?
    ensures Knows(AdvanceThread(w, l, found), l)
  {
    var pc := w.threads[l].pc;
    if pc.Leaving? {
      assert CmdDone(w, pc.cmd, pc.outcome);
      assert AdvanceThread(w, l, found).log == w.log;
    }
  }

  /** Only thread `Actor` of a step can change its own standing. */
  function Actor(s: Step): Option<Life> {
    match s
    case Advance(l, _) => Some(l)
    case CallCurrent(l) => Some(l)
    case CallRegister(l, _) => Some(l)
    case CallCommand(l, _, _) => Some(l)
    case _ => None
  }

  lemma OthersStand(w: World, s: Step, r: Life)
    requires Anchored(w) && Enabled(w, s) && r in Apply(w, s).threads && Actor(s) != Some(r)
    ensures if r in w.threads then w.threads[r].pc == Apply(w, s).threads[r].pc && w.threads[r].addr == Apply(w, s).threads[r].addr
            else Apply(w, s).threads[r].pc == Idle
  {
    if s.Advance? && w.threads[s.life].pc.Inside? {
      WorkOthersStand(w, s.life, w.threads[s.life].pc.work, s.found, r);
    }
  }

  lemma WorkOthersStand(w: World, l: Life, k: Work, found: bool, r: Life)
    requires Enabled(w, Advance(l, found)) && w.threads[l].pc == Inside(k) && r != l
    ensures var w' := WorkStep(w, l, k, found); (r in w'.threads <==> r in w.threads) && (r in w.threads ==> w'.threads[r] == w.threads[r])
  {
  }

  lemma KnowsThread(w: World, s: Step, r: Life)
    requires History(w) && Anchored(w) && Exclusive(w) && Enabled(w, s) && r in Apply(w, s).threads
    requires r in w.threads ==> Knows(w, r)
    ensures Knows(Apply(w, s), r)
  {
    if s.Advance? && s.life == r {
      if w.threads[r].pc.Inside? {
        KnowsInside(w, r, w.threads[r].pc.work, s.found);
      } else {
        KnowsOutside(w, r, s.found);
      }
    } else if Actor(s) != Some(r) {
      OthersStand(w, s, r);
      if r in w.threads {
        LogGrows(w, s);
        if w.threads[r].pc.Inside? {
          OthersKeepLease(w, s, r);
        }
        KnowsOther(w, Apply(w, s), r);
      }
    }
  }

  lemma KnowsStep(w: World, s: Step)
    requires Inv(w) && Enabled(w, s)
    ensures forall r :: r in Apply(w, s).threads ==> Knows(Apply(w, s), r)
  {
    forall r | r in Apply(w, s).threads
      ensures Knows(Apply(w, s), r)
    {
      KnowsThread(w, s, r);
    }
  }

  /** A step changes at most one handle's nonce: to zero when opened, or to the nonce of an
      arm that just returned OK. */
  lemma FileChange(w: World, s: Step, f: nat)
    requires Enabled(w, s) && f in Apply(w, s).files && !(f in w.files && w.files[f] == Apply(w, s).files[f])
    ensures Apply(w, s).files[f] == 0 || (s.Advance? && w.threads[s.life].pc.Leaving? && w.threads[s.life].pc.outcome == Ok &&
              w.threads[s.life].pc.cmd.ArmCmd? && w.threads[s.life].pc.cmd.nonce == Apply(w, s).files[f] && Apply(w, s).log == w.log)
  {
    if s.Advance? && w.threads[s.life].pc.Inside? {
      WorkKeepsFiles(w, s.life, w.threads[s.life].pc.work, s.found);
    }
  }

  lemma WorkKeepsFiles(w: World, l: Life, k: Work, found: bool)
    requires Enabled(w, Advance(l, found)) && w.threads[l].pc == Inside(k)
    ensures WorkStep(w, l, k, found).files == w.files
  {
  }

  lemma ArmedEverGrows(log: seq<Event>, log': seq<Event>, nonce: nat)
    requires log <= log' && ArmedEver(log, nonce)
    ensures ArmedEver(log', nonce)
  {
    ArmedEverKept(log, log'[|log|..], nonce);
    assert log + log'[|log|..] == log';
  }

  lemma FileStep(w: World, s: Step, f: nat)
    requires Enabled(w, s) && f in Apply(w, s).files && Apply(w, s).files[f] != 0
    requires forall l :: l in w.threads ==> Knows(w, l)
    requires f in w.files && w.files[f] != 0 ==> ArmedEver(w.log, w.files[f])
    ensures ArmedEver(Apply(w, s).log, Apply(w, s).files[f])
  {
    LogGrows(w, s);
    if f in w.files && Apply(w, s).files[f] == w.files[f] {
      ArmedEverGrows(w.log, Apply(w, s).log, w.files[f]);
    } else {
      FileChange(w, s, f);
      assert Knows(w, s.life);
    }
  }

  lemma FilesStep(w: World, s: Step)
    requires Inv(w) && Enabled(w, s)
    ensures var w' := Apply(w, s); forall f :: f in w'.files && w'.files[f] != 0 ==> ArmedEver(w'.log, w'.files[f])
  {
    var w' := Apply(w, s);
    forall f | f in w'.files && w'.files[f] != 0
      ensures ArmedEver(w'.log, w'.files[f])
    {
      FileStep(w, s, f);
    }
  }

  lemma InvInit(maxLease: nat)
    ensures Inv(Initial(maxLease))
  {
    var w := Initial(maxLease);
    assert Holders(w.threads) == {};
  }

  lemma InvStep(w: World, s: Step)
    requires Inv(w) && Enabled(w, s)
    ensures Inv(Apply(w, s))
  {
    ExclusiveStep(w, s);
    AnchoredStep(w, s);
    CountedStep(w, s);
    HistoryStep(w, s);
    KnowsStep(w, s);
    FilesStep(w, s);
  }

  lemma {:induction false} InvAlways(maxLease: nat, ws: seq<World>, steps: seq<Step>, i: nat)
    requires IsRun(maxLease, ws, steps) && i < |ws|
    ensures Inv(ws[i]) && ws[i].maxLease == maxLease
  {
    if i == 0 {
      InvInit(maxLease);
    } else {
      InvAlways(maxLease, ws, steps, i - 1);
      assert Enabled(ws[i - 1], steps[i - 1]) && ws[i] == Apply(ws[i - 1], steps[i - 1]);
      InvStep(ws[i - 1], steps[i - 1]);
      LogGrows(ws[i - 1], steps[i - 1]);
    }
  }

  // ---------------------------------------------------------------------------
  // Over whole runs
  // ---------------------------------------------------------------------------

  /** Every RAW answer ever given went to the very lifetime that registered first under
      the grant then live, with the armed tid and uid, after that grant's activation and
      with no clearing, re-arm or second registration or activation in between; and its
      clock reading was before activation plus duration, which in turn is before arm time
      plus max_lease plus duration. */
  lemma RawOnlyToRegistrant(maxLease: nat, ws: seq<World>, steps: seq<Step>, i: nat, k: nat)
    requires IsRun(maxLease, ws, steps) && i < |ws| && k < |ws[i].log| && ws[i].log[k].RawEv?
    ensures exists m :: Justified(ws[i].log, k, m, maxLease) &&
              ws[i].log[k].time < ws[i].log[m.act].time + ws[i].log[m.arm].duration
                                < ws[i].log[m.arm].time + maxLease + ws[i].log[m.arm].duration
  {
    InvAlways(maxLease, ws, steps, i);
    var m :| Justified(ws[i].log, k, m, maxLease);
  }

  /** A thread whose tid or pid address is that of the registrant, but which is another
      lifetime, never passes the comparison: while it asks, the lease's identity is not
      its own object. */
  lemma RecycledIdentityNeverMatches(maxLease: nat, ws: seq<World>, steps: seq<Step>, i: nat, l: Life)
    requires IsRun(maxLease, ws, steps) && i < |ws| && l in ws[i].threads
    requires ws[i].lease.identity == Some(ws[i].threads[l].addr)
    ensures var w := ws[i];
            w.marks.reg < |w.log| && w.log[w.marks.reg].RegisteredEv? && w.log[w.marks.reg].life == l &&
            w.log[w.marks.reg].nonce == w.lease.nonce
  {
    InvAlways(maxLease, ws, steps, i);
    assert ThreadAnchored(ws[i].objects, l, ws[i].threads[l]);
  }

  /** References taken and not returned are exactly the lease's, if it has an identity,
      plus those in threads' hands; per object, plus the running thread's own. */
  lemma ReferencesConserved(maxLease: nat, ws: seq<World>, steps: seq<Step>, i: nat)
    requires IsRun(maxLease, ws, steps) && i < |ws|
    ensures var w := ws[i];
            && w.taken - w.released == Bit(w.lease.phase == Registered || w.lease.phase == Active) + |Holders(w.threads)|
            && (w.lease.identity != None <==> w.lease.phase == Registered || w.lease.phase == Active)
            && forall a :: a in w.objects ==> w.objects[a].refs == Expected(w, a) >= 1
  {
    InvAlways(maxLease, ws, steps, i);
  }

  /** No put ever hits freed memory, and no thread inside an operation is ever stuck for
      want of a live object: every step the code would take next is enabled. */
  lemma NoDanglingReference(maxLease: nat, ws: seq<World>, steps: seq<Step>, i: nat, l: Life, found: bool)
    requires IsRun(maxLease, ws, steps) && i < |ws| && l in ws[i].threads && ws[i].threads[l].pc != Idle
    ensures Enabled(ws[i], Advance(l, found))
    ensures ws[i].threads[l].held != None ==> ws[i].objects[ws[i].threads[l].held.value].refs >= 1
  {
    InvAlways(maxLease, ws, steps, i);
    assert ThreadAnchored(ws[i].objects, l, ws[i].threads[l]);
  }

  /** The last armed nonce is never armed again until another one has been: two arms in a
      row carry different nonces, whatever released or expired in between. */
  lemma NonceArmedOnce(maxLease: nat, ws: seq<World>, steps: seq<Step>, i: nat, a: int, b: int)
    requires IsRun(maxLease, ws, steps) && i < |ws| && ConsecutiveArms(ws[i].log, a, b)
    ensures ws[i].log[a].nonce != ws[i].log[b].nonce
  {
    InvAlways(maxLease, ws, steps, i);
  }

  /** A revoke or a handle close only ever ends the grant whose nonce it quotes, and a
      handle only quotes nonces that were armed. */
  lemma CloseEndsOnlyItsOwnGrant(maxLease: nat, ws: seq<World>, steps: seq<Step>, i: nat, k: nat, f: nat)
    requires IsRun(maxLease, ws, steps) && i < |ws| && k < |ws[i].log|
    ensures ws[i].log[k].ClearedEv? && ws[i].log[k].cause.Closed? ==> ws[i].log[k].cause.quoted == ws[i].log[k].nonce
    ensures ws[i].log[k].ClearedEv? && ws[i].log[k].cause.Revoked? ==> ws[i].log[k].cause.quoted == ws[i].log[k].nonce
    ensures f in ws[i].files && ws[i].files[f] != 0 ==> ArmedEver(ws[i].log, ws[i].files[f])
  {
    InvAlways(maxLease, ws, steps, i);
  }

  ghost predicate LogGrowsAt(ws: seq<World>, k: nat) { 0 < k < |ws| ==> ws[k - 1].log <= ws[k].log }

  ghost predicate LogsGrow(ws: seq<World>) { forall k :: LogGrowsAt(ws, k) }

  lemma {:induction false} LogChain(ws: seq<World>, i: nat, j: nat)
    requires LogsGrow(ws) && i <= j < |ws|
    ensures ws[i].log <= ws[j].log
  {
    if i < j {
      LogChain(ws, i, j - 1);
      assert LogGrowsAt(ws, j);
      PrefixOfPrefix(ws[i].log, ws[j - 1].log, ws[j].log);
    }
  }

  lemma RunLogsGrow(maxLease: nat, ws: seq<World>, steps: seq<Step>)
    requires IsRun(maxLease, ws, steps)
    ensures LogsGrow(ws)
  {
    forall k: nat
      ensures LogGrowsAt(ws, k)
    {
      StepGrows(maxLease, ws, steps, k);
    }
  }

  lemma StepGrows(maxLease: nat, ws: seq<World>, steps: seq<Step>, k: nat)
    requires IsRun(maxLease, ws, steps)
    ensures LogGrowsAt(ws, k)
  {
    if 0 < k < |ws| {
      assert Enabled(ws[k - 1], steps[k - 1]) && ws[k] == Apply(ws[k - 1], steps[k - 1]);
      LogGrows(ws[k - 1], steps[k - 1]);
    }
  }

  lemma PrefixOfPrefix(a: seq<Event>, b: seq<Event>, c: seq<Event>)
    requires a <= b <= c
    ensures a <= c
  {
  }

  /** A grant that was active stays so, under the same activation, as long as it lives. */
  lemma ActivationIsFinal(w: World, w': World)
    requires LeaseFollowsLog(w) && LeaseFollowsLog(w') && w.log <= w'.log && w.marks.arm == w'.marks.arm
    requires w.lease.phase == Active && w'.lease.phase != Released
    ensures w'.lease.phase == Active && w'.marks.act == w.marks.act && w'.log[w'.marks.act] == w.log[w.marks.act]
  {
    var m, m' := w.marks, w'.marks;
    assert Lifecycle(w'.log[m.reg]) && Lifecycle(w'.log[m.act]);
  }

  /** Over any stretch of a run in which one grant lives, its deadline moves at most once: it is
      arm time plus max_lease until the grant's single activation, and that activation's time
      plus the armed duration from then on, whatever is replayed in between. */
  lemma DeadlineMovesOnce(maxLease: nat, ws: seq<World>, steps: seq<Step>, i: nat, j: nat)
    requires IsRun(maxLease, ws, steps) && i <= j < |ws| && ws[i].marks.arm == ws[j].marks.arm
    requires ws[i].lease.phase != Released && ws[j].lease.phase != Released
    ensures ws[i].lease.phase == Active ==>
              ws[j].lease.phase == Active && ws[j].marks.act == ws[i].marks.act && ws[j].lease.deadline == ws[i].lease.deadline
    ensures ws[j].lease.phase != Active ==> ws[j].lease.deadline == ws[i].lease.deadline
    ensures ws[i].lease.phase != Active ==>
              var arm := ws[i].marks.arm;
              && arm < |ws[i].log| && ws[i].log[arm].ArmedEv? && ws[i].lease.deadline == ws[i].log[arm].time + maxLease
              && (ws[j].lease.phase == Active ==>
                    var act := ws[j].marks.act;
                    |ws[i].log| <= act < |ws[j].log| && ws[j].log[act].ActivatedEv? &&
                    ws[j].lease.deadline == ws[j].log[act].time + ws[i].log[arm].duration)
  {
    InvAlways(maxLease, ws, steps, i);
    InvAlways(maxLease, ws, steps, j);
    RunLogsGrow(maxLease, ws, steps);
    LogChain(ws, i, j);
    SameGrant(ws[i], ws[j], maxLease);
  }

  lemma SameGrant(w: World, w': World, maxLease: nat)
    requires LeaseFollowsLog(w) && LeaseFollowsLog(w') && w.log <= w'.log && w.marks.arm == w'.marks.arm && w.maxLease == w'.maxLease == maxLease
    requires w.lease.phase != Released && w'.lease.phase != Released
    ensures w.lease.phase == Active ==> w'.lease.phase == Active && w'.marks.act == w.marks.act && w'.lease.deadline == w.lease.deadline
    ensures w'.lease.phase != Active ==> w'.lease.deadline == w.lease.deadline
    ensures w.lease.phase != Active ==>
              var arm := w.marks.arm;
              && arm < |w.log| && w.log[arm].ArmedEv? && w.lease.deadline == w.log[arm].time + maxLease
              && (w'.lease.phase == Active ==>
                    var act := w'.marks.act;
                    |w.log| <= act < |w'.log| && w'.log[act].ActivatedEv? && w'.lease.deadline == w'.log[act].time + w.log[arm].duration)
  {
    assert w'.log[w.marks.arm] == w.log[w.marks.arm];
    if w.lease.phase == Active {
      ActivationIsFinal(w, w');
    } else if w'.lease.phase == Active {
      NotYetActivated(w, w');
    }
  }

  lemma NotYetActivated(w: World, w': World)
    requires LeaseFollowsLog(w) && LeaseFollowsLog(w') && w.log <= w'.log && w.marks.arm == w'.marks.arm
    requires w.lease.phase == Armed || w.lease.phase == Registered
    requires w'.lease.phase == Active
    ensures |w.log| <= w'.marks.act
  {
    var act := w'.marks.act;
    if act < |w.log| {
      assert w.log[act] == w'.log[act];
      assert Lifecycle(w.log[act]);
    }
  }
}
