/** What the operations bring about: which sections begin, register, activate and end a grant,
    that nothing else ends a live one, that after a revoke or close no RAW answer is given until
    a new grant has been armed, registered and activated, and that no call holds the gate for
    ever. */
module LeaseLife {
  import opened Options
  import opened DiagScope
  import opened LeaseMachine
  import opened LeaseInvariant
  import opened LeaseRuns

  ghost predicate InSection(w: World, l: Life, k: Work) { l in w.threads && w.threads[l].pc == Inside(k) }

  /** Nothing of a lease is left but its nonce. */
  predicate Ended(x: Lease) { x.phase == Released && x.identity == None && x.tid == 0 && x.uid == 0 && x.deadline == 0 && x.duration == 0 }

  /** A grant that can still lead to, or give, RAW answers. */
  predicate Live(x: Lease, now: nat) { x.phase != Released && now < x.deadline }

  // ---------------------------------------------------------------------------
  // Sections
  // ---------------------------------------------------------------------------

  /** A revoke or a close quoting the lease's nonce ends the grant and hands its reference over;
      quoting another one it changes nothing. */
  lemma RevokeEnds(w: World, l: Life, c: Command, f: nat, found: bool)
    requires Enabled(w, Advance(l, found)) && InSection(w, l, CmdBody(c, f)) && (c.RevokeCmd? || c.CloseCmd?)
    ensures var w' := Apply(w, Advance(l, found));
            && (c.nonce == w.lease.nonce ==>
                  Ended(w'.lease) && w'.lease.nonce == c.nonce && w'.threads[l].held == w.lease.identity && InSection(w', l, CmdUnlock(c, f, Ok)))
            && (c.nonce != w.lease.nonce ==> w'.lease == w.lease && w'.log == w.log && InSection(w', l, CmdUnlock(c, f, Stale)))
  {
  }

  /** A readback ends exactly an expired grant. */
  lemma SnapshotReclaims(w: World, l: Life, f: nat, found: bool)
    requires Enabled(w, Advance(l, found)) && InSection(w, l, CmdBody(SnapshotCmd, f))
    ensures var w' := Apply(w, Advance(l, found));
            if w.lease.phase != Released && w.clock >= w.lease.deadline
            then Ended(w'.lease) && w'.threads[l].held == w.lease.identity
            else w'.lease == w.lease && w'.threads[l].held == None
  {
  }

  /** An arm with a new nonce takes over from a grant that is over, and from no other. */
  lemma ArmArms(w: World, l: Life, c: Command, f: nat, found: bool)
    requires Enabled(w, Advance(l, found)) && InSection(w, l, CmdBody(c, f)) && c.ArmCmd? && w.clock + w.maxLease <= U64_MAX
    ensures var w' := Apply(w, Advance(l, found));
            if c.nonce != w.lease.nonce && !Live(w.lease, w.clock) then
              && w'.lease == Lease(None, c.tid, c.uid, Armed, c.nonce, w.clock + w.maxLease, c.duration)
              && w'.threads[l].held == w.lease.identity && InSection(w', l, CmdUnlock(c, f, Ok))
            else w'.lease == w.lease && (c.nonce != w.lease.nonce ==> InSection(w', l, CmdUnlock(c, f, Busy)))
  {
  }

  /** A live armed lease becomes registered to the caller that shows its nonce, uid and tid; the
      uid and the clock are those read at the check, the tid is the caller's own. */
  lemma RegisterRegisters(w: World, l: Life, n: nat, at: Reading, found: bool)
    requires Enabled(w, Advance(l, found)) && InSection(w, l, RegAdopt(n, at)) && w.threads[l].held == Some(w.threads[l].addr)
    requires w.lease.phase == Armed ==> w.lease.identity == None
    ensures var w' := Apply(w, Advance(l, found));
            if w.lease.phase == Armed && w.objects[w.threads[l].addr].number == w.lease.tid
            then w'.lease == w.lease.(phase := Registered, identity := Some(w.threads[l].addr)) && w'.threads[l].held == None && InSection(w', l, RegUnlock)
            else w'.lease == w.lease && w'.threads[l].held == w.threads[l].held && InSection(w', l, RegPut)
  {
  }

  /** The check before it: exactly the live nonce and the armed uid get that far. */
  lemma RegisterChecks(w: World, l: Life, n: nat, found: bool)
    requires Enabled(w, Advance(l, found)) && InSection(w, l, RegCheck(n))
    ensures var w' := Apply(w, Advance(l, found));
            w'.lease == w.lease &&
            if n != 0 && n == w.lease.nonce && Live(w.lease, w.clock) && w.threads[l].uid == w.lease.uid
            then InSection(w', l, RegGet(n, Reading(w.threads[l].uid, w.clock))) else InSection(w', l, RegUnlock)
  {
  }

  /** A live registered lease becomes active, for its armed duration from now. */
  lemma ActivateActivates(w: World, l: Life, n: nat, f: nat, found: bool)
    requires Enabled(w, Advance(l, found)) && InSection(w, l, CmdBody(ActivateCmd(n), f))
    ensures var w' := Apply(w, Advance(l, found));
            if w.lease.phase == Registered && w.lease.identity != None && n != 0 && n == w.lease.nonce && w.clock < w.lease.deadline &&
               w.clock + w.lease.duration <= U64_MAX
            then w'.lease == w.lease.(phase := Active, deadline := w.clock + w.lease.duration) && InSection(w', l, CmdUnlock(ActivateCmd(n), f, Ok))
            else w'.lease == w.lease
  {
  }

  /** A caller with the active lease's uid, before its deadline, whose own object is the
      lease's identity, is answered RAW; the three loads of the answer in turn. */
  lemma CurrentAnswers(w: World, l: Life, at: Reading, allowed: bool, found: bool)
    requires Enabled(w, Advance(l, found))
    ensures InSection(w, l, CurCheck) ==>
              InSection(Apply(w, Advance(l, found)), l,
                        if w.lease.phase == Active && w.clock < w.lease.deadline && w.threads[l].uid == w.lease.uid
                        then CurGet(Reading(w.threads[l].uid, w.clock)) else CurUnlock(Reading(w.threads[l].uid, w.clock), false))
    ensures InSection(w, l, CurGet(at)) && found ==>
              InSection(Apply(w, Advance(l, found)), l, CurCompare(at)) && Apply(w, Advance(l, found)).threads[l].held == Some(w.threads[l].addr)
    ensures InSection(w, l, CurCompare(at)) && w.threads[l].held == Some(w.threads[l].addr) ==>
              InSection(Apply(w, Advance(l, found)), l, CurPut(at, w.lease.identity == Some(w.threads[l].addr)))
    ensures InSection(w, l, CurPut(at, allowed)) ==> InSection(Apply(w, Advance(l, found)), l, CurUnlock(at, allowed))
    ensures InSection(w, l, CurUnlock(at, allowed)) ==>
              Apply(w, Advance(l, found)).log == w.log + if allowed then [RawEv(l, at.uid, at.time)] else []
  {
  }

  /** The handle through which an arm succeeded quotes its nonce from then on, so that closing
      it revokes that grant. */
  lemma HandleRemembers(w: World, l: Life, c: Command, f: nat, found: bool)
    requires Enabled(w, Advance(l, found)) && l in w.threads && w.threads[l].pc == Leaving(c, f, Ok) && c.ArmCmd? && w.threads[l].held == None
    ensures var w' := Apply(w, Advance(l, found)); f in w'.files && w'.files[f] == c.nonce && w'.threads[l].pc == Idle
    ensures var w' := Apply(w, Advance(l, found)); c.nonce != 0 ==> Enabled(w', CallCommand(l, CloseCmd(c.nonce), f))
  {
  }

  // ---------------------------------------------------------------------------
  // Only its own nonce ends a live grant
  // ---------------------------------------------------------------------------

  lemma WorkEndsOwn(w: World, l: Life, k: Work, found: bool)
    requires Enabled(w, Advance(l, found)) && w.threads[l].pc == Inside(k) && Live(w.lease, w.clock)
    requires WorkStep(w, l, k, found).lease.phase == Released || WorkStep(w, l, k, found).lease.nonce != w.lease.nonce
    ensures k.CmdBody? && (k.cmd.RevokeCmd? || k.cmd.CloseCmd?) && k.cmd.nonce == w.lease.nonce
  {
  }

  /** A live grant is ended or displaced only by the section of a revoke or close that quotes
      its nonce. */
  lemma OnlyItsNonceEndsALiveGrant(w: World, s: Step)
    requires Enabled(w, s) && Live(w.lease, w.clock)
    requires Apply(w, s).lease.phase == Released || Apply(w, s).lease.nonce != w.lease.nonce
    ensures s.Advance? && w.threads[s.life].pc.Inside? && w.threads[s.life].pc.work.CmdBody?
    ensures var c := w.threads[s.life].pc.work.cmd; (c.RevokeCmd? || c.CloseCmd?) && c.nonce == w.lease.nonce
  {
    if s.Advance? && w.threads[s.life].pc.Inside? {
      WorkEndsOwn(w, s.life, w.threads[s.life].pc.work, s.found);
    }
  }

  // ---------------------------------------------------------------------------
  // After the end of a grant
  // ---------------------------------------------------------------------------

  /** RAW answer k rests on a grant armed at log position n or later. */
  ghost predicate RestsAfter(log: seq<Event>, k: nat, n: nat, maxLease: nat)
    requires k < |log| && log[k].RawEv?
  {
    exists m: Marks :: m.arm >= n && Justified(log, k, m, maxLease)
  }

  /** Every grant live now, and every RAW answer from log position n on, was armed there or
      later. */
  ghost predicate Since(w: World, n: nat) {
    && n <= |w.log| && (w.lease.phase != Released ==> w.marks.arm >= n)
    && forall k :: n <= k < |w.log| && w.log[k].RawEv? ==> RestsAfter(w.log, k, n, w.maxLease)
  }

  lemma RestsAfterKept(log: seq<Event>, more: seq<Event>, k: nat, n: nat, maxLease: nat)
    requires k < |log| && log[k].RawEv? && RestsAfter(log, k, n, maxLease)
    ensures RestsAfter(log + more, k, n, maxLease)
  {
    var m: Marks :| m.arm >= n && Justified(log, k, m, maxLease);
    assert Justified(log + more, k, m, maxLease);
  }

  lemma SinceSame(w: World, w': World, n: nat)
    requires Since(w, n) && w'.log == w.log && w'.maxLease == w.maxLease && w'.marks.arm == w.marks.arm
    requires w'.lease.phase != Released ==> w.lease.phase != Released
    ensures Since(w', n)
  {
  }

  /** Events other than RAW answers. */
  lemma SinceMore(w: World, w': World, more: seq<Event>, n: nat)
    requires Since(w, n) && w'.log == w.log + more && w'.maxLease == w.maxLease && (forall k :: 0 <= k < |more| ==> !more[k].RawEv?)
    requires w'.lease.phase != Released ==> w'.marks.arm >= n
    ensures Since(w', n)
  {
    forall k | n <= k < |w'.log| && w'.log[k].RawEv?
      ensures RestsAfter(w'.log, k, n, w'.maxLease)
    {
      assert w.log[k].RawEv?;
      RestsAfterKept(w.log, more, k, n, w.maxLease);
    }
  }

  lemma SinceAnswer(w: World, w': World, l: Life, at: Reading, n: nat)
    requires Since(w, n) && LeaseFollowsLog(w) && LeaseAnchored(w) && l in w.threads && ThreadAnchored(w.objects, l, w.threads[l])
    requires LiveSince(w, at) && w.lease.identity == Some(w.threads[l].addr)
    requires w'.log == w.log + [RawEv(l, at.uid, at.time)] && w'.maxLease == w.maxLease && w'.marks == w.marks && w'.lease == w.lease
    ensures Since(w', n)
  {
    var e := RawEv(l, at.uid, at.time);
    RawIsJustified(w, l, at, w'.log);
    forall k | n <= k < |w'.log| && w'.log[k].RawEv?
      ensures RestsAfter(w'.log, k, n, w'.maxLease)
    {
      if k < |w.log| {
        assert w.log[k].RawEv?;
        RestsAfterKept(w.log, [e], k, n, w.maxLease);
      }
    }
  }

  lemma SinceCommand(w: World, l: Life, c: Command, f: nat, n: nat)
    requires Since(w, n) && l in w.threads
    ensures Since(CommandBody(w, l, c, f), n)
  {
    var e := CommandEffect(w.lease, w.maxLease, c, w.clock);
    var more := CommandEvents(w.lease, e.lease, c, w.clock);
    SinceMore(w, CommandBody(w, l, c, f), more, n);
  }

  lemma SinceAdopt(w: World, l: Life, nonce: nat, at: Reading, held: Addr, n: nat)
    requires Since(w, n) && l in w.threads && held in w.objects
    ensures Since(AdoptBody(w, l, nonce, at, held), n)
  {
    var w' := AdoptBody(w, l, nonce, at, held);
    if RegisterAdopt(w.lease, held, w.objects[held].number).taken {
      SinceMore(w, w', [RegisteredEv(nonce, w.objects[held].life, w.objects[held].number, at.uid, at.time)], n);
    } else {
      SinceSame(w, w', n);
    }
  }

  lemma SinceUnlock(w: World, l: Life, at: Reading, allowed: bool, found: bool, n: nat)
    requires Inv(w) && Since(w, n) && Enabled(w, Advance(l, found)) && w.threads[l].pc == Inside(CurUnlock(at, allowed))
    ensures Since(WorkStep(w, l, CurUnlock(at, allowed), found), n)
  {
    assert ThreadAnchored(w.objects, l, w.threads[l]) && Knows(w, l);
    if allowed {
      SinceAnswer(w, WorkStep(w, l, CurUnlock(at, allowed), found), l, at, n);
    } else {
      SinceSame(w, WorkStep(w, l, CurUnlock(at, allowed), found), n);
    }
  }

  lemma SinceQuiet(w: World, l: Life, k: Work, found: bool, n: nat)
    requires Since(w, n) && Enabled(w, Advance(l, found)) && w.threads[l].pc == Inside(k) && !k.CurUnlock? && !k.RegAdopt? && !k.CmdBody?
    ensures Since(WorkStep(w, l, k, found), n)
  {
    SinceSame(w, WorkStep(w, l, k, found), n);
  }

  lemma SinceAdopted(w: World, l: Life, nonce: nat, at: Reading, found: bool, n: nat)
    requires Since(w, n) && Enabled(w, Advance(l, found)) && w.threads[l].pc == Inside(RegAdopt(nonce, at))
    ensures Since(WorkStep(w, l, RegAdopt(nonce, at), found), n)
  {
    SinceAdopt(w, l, nonce, at, w.threads[l].held.value, n);
  }

  lemma SinceCommanded(w: World, l: Life, c: Command, f: nat, found: bool, n: nat)
    requires Since(w, n) && Enabled(w, Advance(l, found)) && w.threads[l].pc == Inside(CmdBody(c, f))
    ensures Since(WorkStep(w, l, CmdBody(c, f), found), n)
  {
    SinceCommand(w, l, c, f, n);
  }

  lemma SinceInside(w: World, l: Life, k: Work, found: bool, n: nat)
    requires Inv(w) && Since(w, n) && Enabled(w, Advance(l, found)) && w.threads[l].pc == Inside(k)
    ensures Since(WorkStep(w, l, k, found), n)
  {
    match k
    case CurUnlock(at, allowed) => SinceUnlock(w, l, at, allowed, found, n);
    case RegAdopt(nonce, at) => SinceAdopted(w, l, nonce, at, found, n);
    case CmdBody(c, f) => SinceCommanded(w, l, c, f, found, n);
    case _ => SinceQuiet(w, l, k, found, n);
  }

  lemma SinceStep(w: World, s: Step, n: nat)
    requires Inv(w) && Since(w, n) && Enabled(w, s)
    ensures Since(Apply(w, s), n)
  {
    if s.Advance? && w.threads[s.life].pc.Inside? {
      SinceInside(w, s.life, w.threads[s.life].pc.work, s.found, n);
    } else {
      SinceSame(w, Apply(w, s), n);
    }
  }

  ghost predicate Carries(ws: seq<World>, n: nat, k: nat) { 0 < k < |ws| && Since(ws[k - 1], n) ==> Since(ws[k], n) }

  ghost predicate CarriesAll(ws: seq<World>, n: nat) { forall k :: Carries(ws, n, k) }

  ghost predicate StepTo(w: World, s: Step, w': World) { Enabled(w, s) && w' == Apply(w, s) }

  lemma IsStep(maxLease: nat, ws: seq<World>, steps: seq<Step>, k: nat)
    requires IsRun(maxLease, ws, steps) && 0 < k < |ws|
    ensures StepTo(ws[k - 1], steps[k - 1], ws[k])
  {
    var i := k - 1;
    assert ws[i + 1] == Apply(ws[i], steps[i]);
  }

  lemma SinceTo(w: World, s: Step, w': World, n: nat)
    requires Inv(w) && StepTo(w, s, w') && Since(w, n)
    ensures Since(w', n)
  {
    SinceStep(w, s, n);
  }

  ghost predicate InvAt(ws: seq<World>, k: nat) { k < |ws| ==> Inv(ws[k]) }

  ghost predicate StepAt(ws: seq<World>, steps: seq<Step>, k: nat) { 0 < k < |ws| && k <= |steps| ==> StepTo(ws[k - 1], steps[k - 1], ws[k]) }

  lemma InvEverywhere(maxLease: nat, ws: seq<World>, steps: seq<Step>)
    requires IsRun(maxLease, ws, steps)
    ensures forall k: nat :: InvAt(ws, k)
  {
    forall k: nat
      ensures InvAt(ws, k)
    {
      InvThere(maxLease, ws, steps, k);
    }
  }

  lemma InvThere(maxLease: nat, ws: seq<World>, steps: seq<Step>, k: nat)
    requires IsRun(maxLease, ws, steps)
    ensures InvAt(ws, k)
  {
    if k < |ws| {
      InvAlways(maxLease, ws, steps, k);
    }
  }

  lemma StepsEverywhere(maxLease: nat, ws: seq<World>, steps: seq<Step>)
    requires IsRun(maxLease, ws, steps)
    ensures |ws| == |steps| + 1 && forall k: nat :: StepAt(ws, steps, k)
  {
    forall k: nat
      ensures StepAt(ws, steps, k)
    {
      if 0 < k < |ws| {
        IsStep(maxLease, ws, steps, k);
      }
    }
  }

  lemma CarriesTo(ws: seq<World>, steps: seq<Step>, k: nat, n: nat)
    requires |ws| == |steps| + 1 && (k > 0 ==> InvAt(ws, k - 1)) && StepAt(ws, steps, k)
    ensures Carries(ws, n, k)
  {
    if 0 < k < |ws| && Since(ws[k - 1], n) {
      SinceTo(ws[k - 1], steps[k - 1], ws[k], n);
    }
  }

  lemma CarriesOn(ws: seq<World>, steps: seq<Step>, n: nat)
    requires |ws| == |steps| + 1 && (forall k: nat :: InvAt(ws, k)) && forall k: nat :: StepAt(ws, steps, k)
    ensures CarriesAll(ws, n)
  {
    forall k: nat
      ensures Carries(ws, n, k)
    {
      assert (k > 0 ==> InvAt(ws, k - 1)) && StepAt(ws, steps, k);
      CarriesTo(ws, steps, k, n);
    }
  }

  lemma SinceNexts(maxLease: nat, ws: seq<World>, steps: seq<Step>, n: nat)
    requires IsRun(maxLease, ws, steps)
    ensures CarriesAll(ws, n)
  {
    InvEverywhere(maxLease, ws, steps);
    StepsEverywhere(maxLease, ws, steps);
    CarriesOn(ws, steps, n);
  }

  lemma {:induction false} SinceChain(ws: seq<World>, i: nat, j: nat, n: nat)
    requires CarriesAll(ws, n) && i <= j < |ws| && Since(ws[i], n)
    ensures Since(ws[j], n)
  {
    if i < j {
      SinceChain(ws, i, j - 1, n);
      assert Carries(ws, n, j);
    }
  }

  lemma SinceAlways(maxLease: nat, ws: seq<World>, steps: seq<Step>, i: nat, j: nat)
    requires IsRun(maxLease, ws, steps) && i <= j < |ws| && ws[i].lease.phase == Released
    ensures Since(ws[j], |ws[i].log|)
  {
    SinceNexts(maxLease, ws, steps, |ws[i].log|);
    SinceChain(ws, i, j, |ws[i].log|);
  }

  /** Once a revoke or a close has quoted the lease's nonce, the grant is over, its caller is
      told so, and every RAW answer from then on rests on a grant armed, registered and activated
      after it. */
  lemma NoRawAfterRevoke(maxLease: nat, ws: seq<World>, steps: seq<Step>, i: nat, j: nat, l: Life, c: Command, f: nat, found: bool, k: nat)
    requires IsRun(maxLease, ws, steps) && i < |steps| && i < j < |ws| && steps[i] == Advance(l, found)
    requires InSection(ws[i], l, CmdBody(c, f)) && (c.RevokeCmd? || c.CloseCmd?) && c.nonce == ws[i].lease.nonce
    ensures Ended(ws[i + 1].lease) && InSection(ws[i + 1], l, CmdUnlock(c, f, Ok))
    ensures |ws[i + 1].log| <= k < |ws[j].log| && ws[j].log[k].RawEv? ==> RestsAfter(ws[j].log, k, |ws[i + 1].log|, maxLease)
  {
    assert Enabled(ws[i], steps[i]) && ws[i + 1] == Apply(ws[i], steps[i]);
    RevokeEnds(ws[i], l, c, f, found);
    SinceAlways(maxLease, ws, steps, i + 1, j);
    InvAlways(maxLease, ws, steps, j);
  }

  // ---------------------------------------------------------------------------
  // The gate
  // ---------------------------------------------------------------------------

  /** Somebody is inside a taken gate. */
  ghost predicate GateIsHeld(w: World) { w.gate ==> exists l :: l in w.threads && w.threads[l].pc.Inside? }

  lemma GateWork(w: World, l: Life, k: Work, found: bool)
    requires Enabled(w, Advance(l, found)) && w.threads[l].pc == Inside(k)
    ensures var w' := WorkStep(w, l, k, found); l in w'.threads && (w'.gate ==> w'.threads[l].pc.Inside?)
  {
  }

  lemma GateStep(w: World, s: Step)
    requires GateIsHeld(w) && Enabled(w, s) && Anchored(w)
    ensures GateIsHeld(Apply(w, s))
  {
    var w' := Apply(w, s);
    if s.Advance? && w.threads[s.life].pc.Inside? {
      GateWork(w, s.life, w.threads[s.life].pc.work, s.found);
    } else if w'.gate {
      if w.gate {
        var r :| r in w.threads && w.threads[r].pc.Inside?;
        assert s.Spawn? ==> r != w.nextLife;
        assert r in w'.threads && w'.threads[r].pc.Inside?;
      } else {
        assert w'.threads[s.life].pc.Inside?;
      }
    }
  }

  lemma GateNext(maxLease: nat, ws: seq<World>, steps: seq<Step>, j: nat)
    requires IsRun(maxLease, ws, steps) && j < |steps| && GateIsHeld(ws[j])
    ensures GateIsHeld(ws[j + 1])
  {
    InvAlways(maxLease, ws, steps, j);
    assert Enabled(ws[j], steps[j]) && ws[j + 1] == Apply(ws[j], steps[j]);
    GateStep(ws[j], steps[j]);
  }

  /** In every state of every run a taken gate has a thread inside it; so whoever tries while
      nobody is inside gets in. */
  lemma {:induction false} GateIsNeverAbandoned(maxLease: nat, ws: seq<World>, steps: seq<Step>, i: nat)
    requires IsRun(maxLease, ws, steps) && i < |ws|
    ensures GateIsHeld(ws[i])
  {
    if i > 0 {
      GateIsNeverAbandoned(maxLease, ws, steps, i - 1);
      GateNext(maxLease, ws, steps, i - 1);
    }
  }

  /** Steps a call may still take: at most seven. */
  function StepsLeft(t: Thread): nat {
    match t.pc
    case Idle => 0
    case Waiting(_) => 7
    case Leaving(_, _, _) => if t.held != None then 2 else 1
    case Inside(k) => WorkLeft(k)
  }

  function WorkLeft(k: Work): nat {
    match k
    case CurCheck => 5 case CurGet(_) => 4 case CurCompare(_) => 3 case CurPut(_, _) => 2 case CurUnlock(_, _) => 1
    case RegCheck(_) => 5 case RegGet(_, _) => 4 case RegAdopt(_, _) => 3 case RegPut => 2 case RegUnlock => 1
    case CmdBody(_, _) => 4 case CmdUnlock(_, _, _) => 3
  }

  lemma CurEnds(w: World, l: Life, k: Work, found: bool)
    requires Enabled(w, Advance(l, found)) && w.threads[l].pc == Inside(k)
    requires k.CurCheck? || k.CurGet? || k.CurCompare? || k.CurPut? || k.CurUnlock?
    ensures var w' := WorkStep(w, l, k, found); l in w'.threads && StepsLeft(w'.threads[l]) < WorkLeft(k) <= 5
  {
  }

  lemma RegEnds(w: World, l: Life, k: Work, found: bool)
    requires Enabled(w, Advance(l, found)) && w.threads[l].pc == Inside(k)
    requires k.RegCheck? || k.RegGet? || k.RegAdopt? || k.RegPut? || k.RegUnlock?
    ensures var w' := WorkStep(w, l, k, found); l in w'.threads && StepsLeft(w'.threads[l]) < WorkLeft(k) <= 5
  {
  }

  lemma WorkEnds(w: World, l: Life, k: Work, found: bool)
    requires Enabled(w, Advance(l, found)) && w.threads[l].pc == Inside(k)
    ensures var w' := WorkStep(w, l, k, found); l in w'.threads && StepsLeft(w'.threads[l]) < WorkLeft(k) <= 5
  {
    if k.CurCheck? || k.CurGet? || k.CurCompare? || k.CurPut? || k.CurUnlock? {
      CurEnds(w, l, k, found);
    } else if !k.CmdBody? && !k.CmdUnlock? {
      RegEnds(w, l, k, found);
    }
  }

  lemma OutsideEnds(w: World, l: Life, found: bool)
    requires Enabled(w, Advance(l, found)) && !w.threads[l].pc.Inside?
    ensures var w' := AdvanceThread(w, l, found); l in w'.threads && StepsLeft(w'.threads[l]) < StepsLeft(w.threads[l]) <= 7
  {
  }

  /** No operation waits or loops: every step of a call brings its end nearer, and after at most
      seven it has left the gate and returned, whatever the other threads do. */
  lemma EveryCallEnds(w: World, l: Life, found: bool)
    requires Enabled(w, Advance(l, found))
    ensures var w' := Apply(w, Advance(l, found)); l in w'.threads && StepsLeft(w'.threads[l]) < StepsLeft(w.threads[l]) <= 7
  {
    if w.threads[l].pc.Inside? {
      WorkEnds(w, l, w.threads[l].pc.work, found);
    } else {
      OutsideEnds(w, l, found);
    }
  }
}
