/** The invariant of the lease machine, and why every step keeps its reference counts
    exact and its pointers anchored to the lifetimes they were taken for. */
module LeaseInvariant {
  import opened Options
  import opened DiagScope
  import opened LeaseMachine

  // ---------------------------------------------------------------------------
  // The log: when a grant is live, and what justifies handing out RAW
  // ---------------------------------------------------------------------------

  /** Lifecycle events, as opposed to RAW answers. */
  predicate Lifecycle(e: Event) { !e.RawEv? }

  /** Between positions lo and hi nothing armed, registered, activated or cleared. */
  ghost predicate Quiet(log: seq<Event>, lo: nat, hi: nat)
    requires hi <= |log|
  {
    forall i :: lo <= i < hi ==> !Lifecycle(log[i])
  }

  /** Before log position k, m.arm is an arm event. */
  ghost predicate ArmedAt(log: seq<Event>, k: nat, m: Marks)
    requires k <= |log|
  {
    m.arm < k && log[m.arm].ArmedEv?
  }

  /** ... and m.reg is the first lifecycle event after it, a registration quoting the armed nonce, tid and uid
      within the arming window. */
  ghost predicate RegisteredAt(log: seq<Event>, k: nat, m: Marks, maxLease: nat)
    requires k <= |log|
  {
    && ArmedAt(log, k, m)
    && m.arm < m.reg < k && log[m.reg].RegisteredEv?
    && Quiet(log, m.arm + 1, m.reg)
    && log[m.reg].nonce == log[m.arm].nonce
    && log[m.reg].number == log[m.arm].tid
    && log[m.reg].uid == log[m.arm].uid
    && log[m.arm].time <= log[m.reg].time < log[m.arm].time + maxLease
  }

  /** ... and m.act is the next one, an activation by the same nonce inside the window,
      and the last before k. */
  ghost predicate ActiveAt(log: seq<Event>, k: nat, m: Marks, maxLease: nat)
    requires k <= |log|
  {
    && RegisteredAt(log, k, m, maxLease)
    && m.reg < m.act < k && log[m.act].ActivatedEv?
    && Quiet(log, m.reg + 1, m.act)
    && log[m.act].nonce == log[m.arm].nonce
    && log[m.reg].time <= log[m.act].time < log[m.arm].time + maxLease
    && Quiet(log, m.act + 1, k)
  }

  /** RAW event k goes to the lifetime that registered, calling with the armed uid, after that grant's activation,
      with no revoke, expiry reclaim or re-arm in between, and before its deadline. */
  ghost predicate Justified(log: seq<Event>, k: nat, m: Marks, maxLease: nat)
    requires k < |log| && log[k].RawEv?
  {
    && ActiveAt(log, k, m, maxLease)
    && log[k].life == log[m.reg].life && log[k].uid == log[m.arm].uid
    && log[m.act].time <= log[k].time < log[m.act].time + log[m.arm].duration
  }

  ghost predicate AllRawJustified(log: seq<Event>, maxLease: nat) {
    forall k :: 0 <= k < |log| && log[k].RawEv? ==> exists m :: Justified(log, k, m, maxLease)
  }

  /** Every clearing by revoke or close quoted the cleared grant's own nonce. */
  ghost predicate ClearsOwnNonce(log: seq<Event>) {
    forall k :: 0 <= k < |log| && log[k].ClearedEv? ==>
      match log[k].cause
      case Revoked(q) => q == log[k].nonce
      case Closed(q) => q == log[k].nonce
      case Expired => true
  }

  /** i and j are consecutive arms. */
  ghost predicate ConsecutiveArms(log: seq<Event>, i: int, j: int) {
    0 <= i < j < |log| && log[i].ArmedEv? && log[j].ArmedEv? && forall k :: i < k < j ==> !log[k].ArmedEv?
  }

  ghost predicate NonceNotReused(log: seq<Event>) {
    forall i, j :: ConsecutiveArms(log, i, j) ==> log[i].nonce != log[j].nonce
  }

  /** The scope's nonce is that of the last arm, or zero before any. */
  ghost predicate LastNonce(log: seq<Event>, nonce: nat) {
    && (forall i :: 0 <= i < |log| && log[i].ArmedEv? && (forall k :: i < k < |log| ==> !log[k].ArmedEv?) ==> log[i].nonce == nonce)
    && (nonce == 0 ==> forall i :: 0 <= i < |log| ==> !log[i].ArmedEv?)
  }

  ghost predicate ArmedEver(log: seq<Event>, nonce: nat) {
    exists i :: 0 <= i < |log| && log[i].ArmedEv? && log[i].nonce == nonce
  }

  // ---------------------------------------------------------------------------
  // References
  // ---------------------------------------------------------------------------

  /** Threads with a reference of their own to put. */
  function Holders(threads: map<Life, Thread>): set<Life> {
    set l | l in threads && threads[l].held != None
  }

  function HoldersOf(threads: map<Life, Thread>, a: Addr): set<Life> {
    set l | l in threads && threads[l].held == Some(a)
  }

  function Bit(b: bool): nat { if b then 1 else 0 }

  ghost predicate Runs(threads: map<Life, Thread>, a: Addr, life: Life) {
    life in threads && threads[life].addr == a
  }

  /** References on the object at a: its running thread, the lease, and locals. */
  ghost function Expected(w: World, a: Addr): nat
    requires a in w.objects
  {
    Bit(Runs(w.threads, a, w.objects[a].life)) + Bit(w.lease.identity == Some(a)) + |HoldersOf(w.threads, a)|
  }

  ghost predicate Counted(w: World) {
    && (forall a :: a in w.objects ==> w.objects[a].refs == Expected(w, a) >= 1)
    && w.taken == w.released + Bit(w.lease.identity != None) + |Holders(w.threads)|
  }

  /** A thread between calls holds nothing; one that took its own identity holds that. */
  ghost predicate HoldsAsItShould(t: Thread) {
    match t.pc
    case Inside(k) => if NeedsHeld(k) then t.held == Some(t.addr) else !k.CmdUnlock? ==> t.held == None
    case Leaving(_, _, _) => true
    case _ => t.held == None
  }

  /** The thread's pid object exists and stands for this lifetime; what it holds exists. */
  ghost predicate ThreadAnchored(objects: map<Addr, PidObject>, l: Life, t: Thread) {
    && t.addr in objects && objects[t.addr].life == l
    && (t.held != None ==> t.held.value in objects)
    && HoldsAsItShould(t)
  }

  /** The lease's identity is the object of the lifetime that registered. */
  ghost predicate LeaseAnchored(w: World) {
    w.lease.identity != None ==>
      && w.lease.identity.value in w.objects
      && w.marks.reg < |w.log| && w.log[w.marks.reg].RegisteredEv?
      && w.objects[w.lease.identity.value].life == w.log[w.marks.reg].life
  }

  /** Nobody points at freed memory, and pointers name the lifetime they were taken for. */
  ghost predicate Anchored(w: World) {
    && (forall l :: l in w.threads ==> l < w.nextLife && ThreadAnchored(w.objects, l, w.threads[l]))
    && (forall a :: a in w.objects ==> w.objects[a].life < w.nextLife)
    && LeaseAnchored(w)
  }

  // ---------------------------------------------------------------------------
  // Gate and history
  // ---------------------------------------------------------------------------

  ghost predicate Exclusive(w: World) {
    && (forall l :: l in w.threads && w.threads[l].pc.Inside? ==> w.gate)
    && (forall l, r :: l in w.threads && r in w.threads && w.threads[l].pc.Inside? && w.threads[r].pc.Inside? ==> l == r)
  }

  /** The lease as the log tells it. */
  ghost predicate LeaseFollowsLog(w: World) {
    var m, x, log := w.marks, w.lease, w.log;
    && WellFormed(x, w.maxLease)
    && LastNonce(log, x.nonce)
    && (x.phase != Released ==>
          && ArmedAt(log, |log|, m)
          && log[m.arm] == ArmedEv(x.nonce, x.tid, x.uid, x.duration, log[m.arm].time)
          && log[m.arm].time <= w.clock)
    && (x.phase == Armed ==> x.deadline == log[m.arm].time + w.maxLease && Quiet(log, m.arm + 1, |log|))
    && (x.phase == Registered ==>
          && RegisteredAt(log, |log|, m, w.maxLease) && Quiet(log, m.reg + 1, |log|)
          && x.deadline == log[m.arm].time + w.maxLease
          && log[m.reg].time <= w.clock)
    && (x.phase == Active ==>
          && ActiveAt(log, |log|, m, w.maxLease)
          && x.deadline == log[m.act].time + x.duration
          && log[m.act].time <= w.clock)
  }

  /** What a thread inside the gate already knows. */
  ghost predicate Knows(w: World, l: Life)
    requires l in w.threads
  {
    match w.threads[l].pc
    case Idle => true
    case Waiting(call) => call.CommandCall? ==> CmdKnows(w, call.cmd)
    case Inside(k) => WorkKnows(w, k, w.threads[l].addr)
    case Leaving(c, _, o) => CmdDone(w, c, o)
  }

  ghost predicate WorkKnows(w: World, k: Work, addr: Addr) {
    match k
    case CurGet(at) => LiveSince(w, at)
    case CurCompare(at) => LiveSince(w, at)
    case CurPut(at, allowed) => LiveSince(w, at) && (allowed ==> w.lease.identity == Some(addr))
    case CurUnlock(at, allowed) => allowed ==> LiveSince(w, at) && w.lease.identity == Some(addr)
    case RegGet(n, at) => RegKnows(w, n, at)
    case RegAdopt(n, at) => RegKnows(w, n, at)
    case CmdBody(c, _) => CmdKnows(w, c)
    case CmdUnlock(c, _, o) => CmdDone(w, c, o)
    case _ => true
  }

  ghost predicate CmdDone(w: World, c: Command, o: Outcome) {
    c.ArmCmd? && o == Ok ==> ArmedEver(w.log, c.nonce)
  }

  /** When `at` was read, its uid was the lease's, and the lease was active, unexpired and is
      still the same grant. */
  ghost predicate LiveSince(w: World, at: Reading) {
    w.lease.phase == Active && at.uid == w.lease.uid && at.time < w.lease.deadline && SinceActivation(w, at.time)
  }

  ghost predicate SinceActivation(w: World, at: nat) {
    w.marks.act < |w.log| && w.log[w.marks.act].ActivatedEv? && w.log[w.marks.act].time <= at <= w.clock
  }

  ghost predicate RegKnows(w: World, n: nat, at: Reading) {
    && n == w.lease.nonce && w.lease.phase != Released && at.uid == w.lease.uid && at.time < w.lease.deadline && at.time <= w.clock
    && (w.lease.phase == Armed ==> w.marks.arm < |w.log| && w.log[w.marks.arm].ArmedEv? && w.log[w.marks.arm].time <= at.time)
  }

  ghost predicate CmdKnows(w: World, c: Command) {
    match c
    case ArmCmd(tid, uid, nonce, duration) => ArmArgs(w.maxLease, tid, uid, nonce, duration)
    case RevokeCmd(nonce) => nonce != 0
    case CloseCmd(nonce) => nonce != 0
    case _ => true
  }

  ghost predicate Inv(w: World) {
    && w.clock <= U64_MAX
    && Exclusive(w)
    && LeaseFollowsLog(w)
    && Anchored(w)
    && Counted(w)
    && (forall l :: l in w.threads ==> Knows(w, l))
    && (forall f :: f in w.files && w.files[f] != 0 ==> ArmedEver(w.log, w.files[f]))
    && AllRawJustified(w.log, w.maxLease)
    && ClearsOwnNonce(w.log)
    && NonceNotReused(w.log)
  }

  // ---------------------------------------------------------------------------
  // Counting lemmas
  // ---------------------------------------------------------------------------

  lemma SizeAfter(before: set<Life>, after: set<Life>, l: Life)
    requires before - {l} == after - {l}
    ensures |after| == |before| - Bit(l in before) + Bit(l in after)
  {
    assert |before - {l}| == |before| - Bit(l in before);
    assert |after - {l}| == |after| - Bit(l in after);
  }

  function HeldBy(threads: map<Life, Thread>, l: Life): Option<Addr> {
    if l in threads then threads[l].held else None
  }

  /** Replacing or adding one thread moves its held reference between the holder sets. */
  lemma HoldersAfter(threads: map<Life, Thread>, l: Life, t: Thread)
    ensures |Holders(threads[l := t])| == |Holders(threads)| - Bit(HeldBy(threads, l) != None) + Bit(t.held != None)
  {
    SizeAfter(Holders(threads), Holders(threads[l := t]), l);
  }

  lemma HoldersOfAfter(threads: map<Life, Thread>, l: Life, t: Thread, a: Addr)
    ensures |HoldersOf(threads[l := t], a)| == |HoldersOf(threads, a)| - Bit(HeldBy(threads, l) == Some(a)) + Bit(t.held == Some(a))
  {
    SizeAfter(HoldersOf(threads, a), HoldersOf(threads[l := t], a), l);
  }

  /** A thread that holds nothing leaves the holder sets as they were. */
  lemma HoldersAfterExit(threads: map<Life, Thread>, l: Life)
    requires l in threads && threads[l].held == None
    ensures Holders(threads - {l}) == Holders(threads)
    ensures forall a: Addr :: HoldersOf(threads - {l}, a) == HoldersOf(threads, a)
  {
  }

  // ---------------------------------------------------------------------------
  // Log lemmas
  // ---------------------------------------------------------------------------

  lemma JustifiedKept(log: seq<Event>, more: seq<Event>, maxLease: nat)
    requires AllRawJustified(log, maxLease)
    requires forall k :: 0 <= k < |more| ==> !more[k].RawEv?
    ensures AllRawJustified(log + more, maxLease)
  {
    var all := log + more;
    forall k | 0 <= k < |all| && all[k].RawEv?
      ensures exists m :: Justified(all, k, m, maxLease)
    {
      assert log[k].RawEv?;
      var m :| Justified(log, k, m, maxLease);
      assert Justified(all, k, m, maxLease);
    }
  }

  lemma JustifiedAfterRaw(log: seq<Event>, e: Event, m: Marks, maxLease: nat)
    requires AllRawJustified(log, maxLease) && e.RawEv? && Justified(log + [e], |log|, m, maxLease)
    ensures AllRawJustified(log + [e], maxLease)
  {
    var all := log + [e];
    forall k | 0 <= k < |all| && all[k].RawEv?
      ensures exists m :: Justified(all, k, m, maxLease)
    {
      if k < |log| {
        assert log[k].RawEv?;
        var n :| Justified(log, k, n, maxLease);
        assert Justified(all, k, n, maxLease);
      }
    }
  }

  /** Appending events with no arm among them keeps the nonce facts. */
  lemma NoncesKept(log: seq<Event>, more: seq<Event>, nonce: nat)
    requires NonceNotReused(log) && LastNonce(log, nonce)
    requires forall k :: 0 <= k < |more| ==> !more[k].ArmedEv?
    ensures NonceNotReused(log + more) && LastNonce(log + more, nonce)
  {
    var all := log + more;
    forall i, j | ConsecutiveArms(all, i, j)
      ensures all[i].nonce != all[j].nonce
    {
      forall k | i < k < j
        ensures !log[k].ArmedEv?
      {
        assert !all[k].ArmedEv?;
      }
      assert ConsecutiveArms(log, i, j);
    }
    forall i | 0 <= i < |all| && all[i].ArmedEv? && (forall k :: i < k < |all| ==> !all[k].ArmedEv?)
      ensures all[i].nonce == nonce
    {
      forall k | i < k < |log|
        ensures !log[k].ArmedEv?
      {
        assert !all[k].ArmedEv?;
      }
    }
  }

  lemma NoncesAfterArm(log: seq<Event>, e: Event, nonce: nat)
    requires NonceNotReused(log) && LastNonce(log, nonce) && e.ArmedEv? && e.nonce != nonce && e.nonce != 0
    ensures NonceNotReused(log + [e]) && LastNonce(log + [e], e.nonce)
  {
    var all := log + [e];
    forall i, j | ConsecutiveArms(all, i, j)
      ensures all[i].nonce != all[j].nonce
    {
      forall k | i < k < j && k < |log|
        ensures !log[k].ArmedEv?
      {
        assert !all[k].ArmedEv?;
      }
      if j < |log| {
        assert ConsecutiveArms(log, i, j);
      }
    }
    assert all[|log|] == e;
  }

  lemma ArmedEverKept(log: seq<Event>, more: seq<Event>, nonce: nat)
    requires ArmedEver(log, nonce)
    ensures ArmedEver(log + more, nonce)
  {
    var i :| 0 <= i < |log| && log[i].ArmedEv? && log[i].nonce == nonce;
    assert (log + more)[i] == log[i];
  }

  // ---------------------------------------------------------------------------
  // Every step keeps the invariant
  // ---------------------------------------------------------------------------

  /** Reference counts after thread l becomes t, the object table becomes `objects` and
      the lease's identity becomes `identity`, provided each count moved with its owners. */
  lemma CountedAfter(w: World, w': World, l: Life, t: Thread)
    requires Counted(w)
    requires w'.threads == w.threads[l := t]
    requires w'.taken + w.released + Bit(w.lease.identity != None) + Bit(HeldBy(w.threads, l) != None)
          == w.taken + w'.released + Bit(w'.lease.identity != None) + Bit(t.held != None)
    requires forall a :: a in w'.objects ==> a in w.objects && w'.objects[a].life == w.objects[a].life
    requires forall a :: a in w'.objects ==>
      w'.objects[a].refs + Bit(Runs(w.threads, a, w.objects[a].life)) + Bit(w.lease.identity == Some(a)) + Bit(HeldBy(w.threads, l) == Some(a))
      == w.objects[a].refs + Bit(Runs(w'.threads, a, w.objects[a].life)) + Bit(w'.lease.identity == Some(a)) + Bit(t.held == Some(a))
    requires forall a :: a in w'.objects ==> w'.objects[a].refs >= 1
    ensures Counted(w')
  {
    HoldersAfter(w.threads, l, t);
    forall a | a in w'.objects
      ensures w'.objects[a].refs == Expected(w', a) >= 1
    {
      HoldersOfAfter(w.threads, l, t, a);
    }
  }

  /** Steps that move no reference. */
  lemma CountedSame(w: World, w': World, l: Life, t: Thread)
    requires Counted(w) && w'.threads == w.threads[l := t] && l in w.threads && t.held == w.threads[l].held && t.addr == w.threads[l].addr
    requires w'.objects == w.objects && w'.taken == w.taken && w'.released == w.released && w'.lease.identity == w.lease.identity
    ensures Counted(w')
  {
    CountedAfter(w, w', l, t);
  }

  lemma CountedTake(w: World, l: Life, pc: Pc)
    requires Counted(w) && l in w.threads && w.threads[l].addr in w.objects && w.threads[l].held == None
    ensures Counted(SetHeld(TakeRef(w, w.threads[l].addr), l, Some(w.threads[l].addr), pc))
  {
    var a := w.threads[l].addr;
    CountedAfter(w, SetHeld(TakeRef(w, a), l, Some(a), pc), l, w.threads[l].(held := Some(a), pc := pc));
  }

  lemma CountedPut(w: World, l: Life, pc: Pc)
    requires Counted(w) && l in w.threads && w.threads[l].held != None && w.threads[l].held.value in w.objects
    ensures Counted(SetHeld(PutRef(w, w.threads[l].held.value), l, None, pc))
  {
    var a := w.threads[l].held.value;
    CountedAfter(w, SetHeld(PutRef(w, a), l, None, pc), l, w.threads[l].(held := None, pc := pc));
  }

  /** Steps that hand a reference from a thread to the lease or back. */
  lemma CountedMove(w: World, w': World, l: Life, t: Thread)
    requires Counted(w) && w'.threads == w.threads[l := t] && l in w.threads && t.addr == w.threads[l].addr
    requires w'.objects == w.objects && w'.taken == w.taken && w'.released == w.released
    requires w.threads[l].held == None || w.lease.identity == None
    requires t.held == None || w'.lease.identity == None
    requires {w'.lease.identity, t.held} == {w.lease.identity, w.threads[l].held}
    ensures Counted(w')
  {
    CountedAfter(w, w', l, t);
  }

  lemma CommandMovesIdentity(x: Lease, maxLease: nat, cmd: Command, now: nat)
    requires WellFormed(x, maxLease)
    ensures var e := CommandEffect(x, maxLease, cmd, now);
            (e.lease.identity == x.identity && e.freed == None) || (e.lease.identity == None && e.freed == x.identity)
  {
  }

  lemma CountedAdopt(w: World, l: Life, nonce: nat, at: Reading, held: Addr)
    requires Counted(w) && WellFormed(w.lease, w.maxLease) && l in w.threads && held in w.objects && w.threads[l].held == Some(held)
    ensures Counted(AdoptBody(w, l, nonce, at, held))
  {
    var w' := AdoptBody(w, l, nonce, at, held);
    if RegisterAdopt(w.lease, held, w.objects[held].number).taken {
      CountedMove(w, w', l, w'.threads[l]);
    } else {
      CountedSame(w, w', l, w'.threads[l]);
    }
  }

  lemma CountedCommand(w: World, l: Life, cmd: Command, file: nat)
    requires Counted(w) && WellFormed(w.lease, w.maxLease) && l in w.threads && w.threads[l].held == None
    ensures Counted(CommandBody(w, l, cmd, file))
  {
    var w' := CommandBody(w, l, cmd, file);
    CommandMovesIdentity(w.lease, w.maxLease, cmd, w.clock);
    CountedMove(w, w', l, w'.threads[l]);
  }

  lemma CountedInside(w: World, l: Life, k: Work, found: bool)
    requires Counted(w) && WellFormed(w.lease, w.maxLease) && Enabled(w, Advance(l, found)) && w.threads[l].pc == Inside(k)
    requires HoldsAsItShould(w.threads[l])
    ensures Counted(WorkStep(w, l, k, found))
  {
    var w' := WorkStep(w, l, k, found);
    match k
    case CurGet(at) => if found { CountedTake(w, l, Inside(CurCompare(at))); } else { CountedSame(w, w', l, w'.threads[l]); }
    case RegGet(n, at) => if found { CountedTake(w, l, Inside(RegAdopt(n, at))); } else { CountedSame(w, w', l, w'.threads[l]); }
    case CurPut(at, allowed) => CountedPut(w, l, Inside(CurUnlock(at, allowed)));
    case RegPut => CountedPut(w, l, Inside(RegUnlock));
    case RegAdopt(n, at) => CountedAdopt(w, l, n, at, w.threads[l].held.value);
    case CmdBody(c, f) => CountedCommand(w, l, c, f);
    case CurCheck => CountedSame(w, w', l, w'.threads[l]);
    case CurCompare(_) => CountedSame(w, w', l, w'.threads[l]);
    case CurUnlock(_, _) => CountedSame(w, w', l, w'.threads[l]);
    case RegCheck(_) => CountedSame(w, w', l, w'.threads[l]);
    case RegUnlock => CountedSame(w, w', l, w'.threads[l]);
    case CmdUnlock(_, _, _) => CountedSame(w, w', l, w'.threads[l]);
  }

  lemma CountedSpawn(w: World, addr: Addr, number: nat, uid: nat)
    requires Anchored(w) && Counted(w) && addr !in w.objects
    ensures Counted(Apply(w, Spawn(addr, number, uid)))
  {
    var w' := Apply(w, Spawn(addr, number, uid));
    var t := Thread(addr, uid, None, Idle);
    HoldersAfter(w.threads, w.nextLife, t);
    forall a | a in w'.objects
      ensures w'.objects[a].refs == Expected(w', a) >= 1
    {
      HoldersOfAfter(w.threads, w.nextLife, t, a);
      if a == addr {
        NobodyHoldsFree(w, a);
      }
    }
  }

  lemma RefsAfterExit(w: World, w': World, l: Life, a: Addr)
    requires l in w.threads && w.threads[l].held == None && w.threads[l].addr in w.objects && w.objects[w.threads[l].addr].life == l
    requires w'.threads == w.threads - {l} && w'.objects == DropRef(w.objects, w.threads[l].addr) && w'.lease == w.lease
    requires a in w'.objects && w.objects[a].refs == Expected(w, a) >= 1
    ensures w'.objects[a].refs == Expected(w', a) >= 1
  {
    HoldersAfterExit(w.threads, l);
    assert Runs(w'.threads, a, w.objects[a].life) == (Runs(w.threads, a, w.objects[a].life) && a != w.threads[l].addr);
  }

  lemma CountedExit(w: World, l: Life)
    requires Anchored(w) && Counted(w) && Enabled(w, Exit(l))
    ensures Counted(Apply(w, Exit(l)))
  {
    assert ThreadAnchored(w.objects, l, w.threads[l]);
    HoldersAfterExit(w.threads, l);
    forall a | a in Apply(w, Exit(l)).objects
      ensures Apply(w, Exit(l)).objects[a].refs == Expected(Apply(w, Exit(l)), a) >= 1
    {
      RefsAfterExit(w, Apply(w, Exit(l)), l, a);
    }
  }

  lemma CountedStep(w: World, s: Step)
    requires Anchored(w) && Counted(w) && WellFormed(w.lease, w.maxLease) && Enabled(w, s)
    ensures Counted(Apply(w, s))
  {
    var w' := Apply(w, s);
    match s
    case Tick(_) =>
    case OpenFile(_) =>
    case Spawn(addr, number, uid) => CountedSpawn(w, addr, number, uid);
    case Exit(l) => CountedExit(w, l);
    case SetUid(l, _) => CountedSame(w, w', l, w'.threads[l]);
    case CallCurrent(l) => if w.lease.identity != None { CountedSame(w, w', l, w'.threads[l]); }
    case CallRegister(l, _) => CountedSame(w, w', l, w'.threads[l]);
    case CallCommand(l, _, _) => CountedSame(w, w', l, w'.threads[l]);
    case Advance(l, found) =>
      assert ThreadAnchored(w.objects, l, w.threads[l]);
      match w.threads[l].pc
      case Waiting(_) => CountedSame(w, w', l, w'.threads[l]);
      case Inside(k) => CountedInside(w, l, k, found);
      case Leaving(c, f, o) =>
        if w.threads[l].held != None { CountedPut(w, l, Leaving(c, f, o)); } else { CountedSame(w, w', l, w'.threads[l]); }
  }

  // Anchored ------------------------------------------------------------------

  /** When the last reference is the one thread l is about to put, nobody else points there. */
  lemma SoleOwner(w: World, l: Life, a: Addr)
    requires Anchored(w) && Counted(w) && l in w.threads && w.threads[l].held == Some(a) && w.objects[a].refs <= 1
    ensures w.lease.identity != Some(a)
    ensures forall r :: r in w.threads ==> w.threads[r].addr != a
    ensures forall r :: r in w.threads && r != l ==> w.threads[r].held != Some(a)
  {
    var h := HoldersOf(w.threads, a);
    assert l in h && |h - {l}| == |h| - 1;
    assert !Runs(w.threads, a, w.objects[a].life);
    forall r | r in w.threads && r != l
      ensures w.threads[r].held != Some(a)
    {
      assert r !in h - {l};
    }
  }

  /** Same address, same lifetime: nothing in use was freed or replaced. */
  ghost predicate Survives(objects: map<Addr, PidObject>, objects': map<Addr, PidObject>, a: Addr) {
    a in objects && a in objects' && objects[a].life == objects'[a].life
  }

  /** Replacing thread l, every object in use by others surviving. */
  lemma AnchoredFrame(w: World, w': World, l: Life, t: Thread)
    requires Anchored(w) && l in w.threads && w'.threads == w.threads[l := t] && w'.nextLife == w.nextLife
    requires forall a :: a in w'.objects ==> Survives(w.objects, w'.objects, a)
    requires forall r :: r in w.threads && r != l ==>
      w.threads[r].addr in w'.objects && (w.threads[r].held != None ==> w.threads[r].held.value in w'.objects)
    requires ThreadAnchored(w'.objects, l, t) && LeaseAnchored(w')
    ensures Anchored(w')
  {
    forall r | r in w'.threads
      ensures r < w'.nextLife && ThreadAnchored(w'.objects, r, w'.threads[r])
    {
      assert ThreadAnchored(w.objects, r, w.threads[r]);
      if r != l {
        assert Survives(w.objects, w'.objects, w'.threads[r].addr);
      }
    }
  }

  lemma AnchoredSame(w: World, w': World, l: Life, t: Thread)
    requires Anchored(w) && l in w.threads && w'.threads == w.threads[l := t] && w'.nextLife == w.nextLife
    requires forall a :: a in w.objects <==> a in w'.objects
    requires forall a :: a in w.objects ==> w.objects[a].life == w'.objects[a].life
    requires ThreadAnchored(w'.objects, l, t) && LeaseAnchored(w')
    ensures Anchored(w')
  {
    forall r | r in w.threads && r != l
      ensures w.threads[r].addr in w'.objects && (w.threads[r].held != None ==> w.threads[r].held.value in w'.objects)
    {
      assert ThreadAnchored(w.objects, r, w.threads[r]);
    }
    AnchoredFrame(w, w', l, t);
  }

  /** What others run on or hold survives a put. */
  lemma OthersSurvivePut(w: World, l: Life, a: Addr, r: Life)
    requires Anchored(w) && Counted(w) && l in w.threads && w.threads[l].held == Some(a) && r in w.threads && r != l
    requires a in w.objects
    ensures w.threads[r].addr in PutRef(w, a).objects && (w.threads[r].held != None ==> w.threads[r].held.value in PutRef(w, a).objects)
  {
    assert ThreadAnchored(w.objects, r, w.threads[r]);
    if w.objects[a].refs <= 1 {
      SoleOwner(w, l, a);
    }
  }

  lemma LeaseSurvivesPut(w: World, l: Life, a: Addr)
    requires Anchored(w) && Counted(w) && l in w.threads && w.threads[l].held == Some(a) && a in w.objects
    ensures LeaseAnchored(PutRef(w, a)) && w.threads[l].addr in PutRef(w, a).objects
  {
    assert ThreadAnchored(w.objects, l, w.threads[l]);
    if w.objects[a].refs <= 1 {
      SoleOwner(w, l, a);
    }
  }

  /** The put itself, once everything in use is known to survive it. */
  lemma PutFrame(w: World, l: Life, a: Addr, pc: Pc)
    requires Anchored(w) && l in w.threads && w.threads[l].held == Some(a) && a in w.objects
    requires pc.Leaving? || pc == Inside(RegUnlock) || (pc.Inside? && pc.work.CurUnlock?)
    requires LeaseAnchored(PutRef(w, a)) && w.threads[l].addr in PutRef(w, a).objects
    requires forall r :: r in w.threads && r != l ==>
      w.threads[r].addr in PutRef(w, a).objects && (w.threads[r].held != None ==> w.threads[r].held.value in PutRef(w, a).objects)
    ensures Anchored(SetHeld(PutRef(w, a), l, None, pc))
  {
    var w' := SetHeld(PutRef(w, a), l, None, pc);
    assert ThreadAnchored(w.objects, l, w.threads[l]);
    AnchoredFrame(w, w', l, w'.threads[l]);
  }

  lemma AnchoredPut(w: World, l: Life, pc: Pc)
    requires Anchored(w) && Counted(w) && l in w.threads && w.threads[l].held != None
    requires pc.Leaving? || pc == Inside(RegUnlock) || (pc.Inside? && pc.work.CurUnlock?)
    ensures Anchored(SetHeld(PutRef(w, w.threads[l].held.value), l, None, pc))
  {
    assert ThreadAnchored(w.objects, l, w.threads[l]);
    var a := w.threads[l].held.value;
    forall r | r in w.threads && r != l
      ensures w.threads[r].addr in PutRef(w, a).objects && (w.threads[r].held != None ==> w.threads[r].held.value in PutRef(w, a).objects)
    {
      OthersSurvivePut(w, l, a, r);
    }
    LeaseSurvivesPut(w, l, a);
    PutFrame(w, l, a, pc);
  }

  /** What the others run on and hold survives an exit. */
  lemma ThreadAfterExit(w: World, l: Life, r: Life)
    requires Anchored(w) && Counted(w) && Enabled(w, Exit(l)) && r in w.threads && r != l
    ensures ThreadAnchored(DropRef(w.objects, w.threads[l].addr), r, w.threads[r])
  {
    var a := w.threads[l].addr;
    assert ThreadAnchored(w.objects, l, w.threads[l]) && ThreadAnchored(w.objects, r, w.threads[r]);
    assert Runs(w.threads, a, l);
    if w.objects[a].refs <= 1 {
      assert |HoldersOf(w.threads, a)| == 0;
      assert w.threads[r].held == Some(a) ==> r in HoldersOf(w.threads, a);
    }
  }

  lemma LeaseAfterExit(w: World, l: Life)
    requires Anchored(w) && Counted(w) && Enabled(w, Exit(l))
    ensures LeaseAnchored(Apply(w, Exit(l)))
  {
    assert ThreadAnchored(w.objects, l, w.threads[l]);
    assert Runs(w.threads, w.threads[l].addr, l);
  }

  lemma AnchoredExit(w: World, l: Life)
    requires Anchored(w) && Counted(w) && Enabled(w, Exit(l))
    ensures Anchored(Apply(w, Exit(l)))
  {
    var w' := Apply(w, Exit(l));
    LeaseAfterExit(w, l);
    forall r | r in w'.threads
      ensures r < w'.nextLife && ThreadAnchored(w'.objects, r, w'.threads[r])
    {
      ThreadAfterExit(w, l, r);
    }
  }

  lemma AnchoredSpawn(w: World, addr: Addr, number: nat, uid: nat)
    requires Anchored(w) && addr !in w.objects
    ensures Anchored(Apply(w, Spawn(addr, number, uid)))
  {
    var w' := Apply(w, Spawn(addr, number, uid));
    forall r | r in w'.threads
      ensures r < w'.nextLife && ThreadAnchored(w'.objects, r, w'.threads[r])
    {
      assert r in w.threads ==> ThreadAnchored(w.objects, r, w.threads[r]);
    }
  }

  lemma AnchoredAdopt(w: World, l: Life, nonce: nat, at: Reading)
    requires Anchored(w) && l in w.threads && w.threads[l].pc == Inside(RegAdopt(nonce, at))
    requires w.threads[l].addr in w.objects
    ensures Anchored(AdoptBody(w, l, nonce, at, w.threads[l].addr))
  {
    var w' := AdoptBody(w, l, nonce, at, w.threads[l].addr);
    assert ThreadAnchored(w.objects, l, w.threads[l]);
    AnchoredSame(w, w', l, w'.threads[l]);
  }

  lemma AnchoredCommand(w: World, l: Life, c: Command, f: nat)
    requires Anchored(w) && l in w.threads && w.threads[l].pc == Inside(CmdBody(c, f)) && WellFormed(w.lease, w.maxLease)
    ensures Anchored(CommandBody(w, l, c, f))
  {
    var w' := CommandBody(w, l, c, f);
    CommandMovesIdentity(w.lease, w.maxLease, c, w.clock);
    assert ThreadAnchored(w.objects, l, w.threads[l]);
    AnchoredSame(w, w', l, w'.threads[l]);
  }

  lemma AnchoredTake(w: World, l: Life, k: Work)
    requires Anchored(w) && l in w.threads && w.threads[l].addr in w.objects && (k.CurCompare? || k.RegAdopt?)
    ensures Anchored(SetHeld(TakeRef(w, w.threads[l].addr), l, Some(w.threads[l].addr), Inside(k)))
  {
    var w' := SetHeld(TakeRef(w, w.threads[l].addr), l, Some(w.threads[l].addr), Inside(k));
    assert ThreadAnchored(w.objects, l, w.threads[l]);
    AnchoredSame(w, w', l, w'.threads[l]);
  }

  /** Steps that only move the thread's program counter, the gate or the RAW log. */
  lemma AnchoredMove(w: World, w': World, l: Life, pc: Pc)
    requires Anchored(w) && l in w.threads && w'.threads == w.threads[l := w.threads[l].(pc := pc)] && w'.nextLife == w.nextLife
    requires w'.objects == w.objects && w'.lease == w.lease && w'.marks == w.marks && w.log <= w'.log
    requires HoldsAsItShould(w.threads[l]) ==> HoldsAsItShould(w.threads[l].(pc := pc))
    ensures Anchored(w')
  {
    assert ThreadAnchored(w.objects, l, w.threads[l]);
    AnchoredSame(w, w', l, w'.threads[l]);
  }

  /** The sections that ask for the caller's identity. */
  lemma AnchoredGet(w: World, l: Life, k: Work, found: bool)
    requires Anchored(w) && Enabled(w, Advance(l, found)) && w.threads[l].pc == Inside(k) && (k.CurGet? || k.RegGet?)
    ensures Anchored(WorkStep(w, l, k, found))
  {
    assert ThreadAnchored(w.objects, l, w.threads[l]);
    if found {
      AnchoredTake(w, l, if k.CurGet? then CurCompare(k.at) else RegAdopt(k.nonce, k.at));
    } else {
      AnchoredMove(w, WorkStep(w, l, k, found), l, Inside(if k.CurGet? then CurUnlock(k.at, false) else RegUnlock));
    }
  }

  lemma AnchoredInside(w: World, l: Life, k: Work, found: bool)
    requires Anchored(w) && Counted(w) && WellFormed(w.lease, w.maxLease) && Enabled(w, Advance(l, found)) && w.threads[l].pc == Inside(k)
    ensures Anchored(WorkStep(w, l, k, found))
  {
    assert ThreadAnchored(w.objects, l, w.threads[l]);
    match k
    case CurPut(at, allowed) => AnchoredPut(w, l, Inside(CurUnlock(at, allowed)));
    case RegPut => AnchoredPut(w, l, Inside(RegUnlock));
    case RegAdopt(n, at) => AnchoredAdopt(w, l, n, at);
    case CmdBody(c, f) => AnchoredCommand(w, l, c, f);
    case CurGet(_) => AnchoredGet(w, l, k, found);
    case RegGet(_, _) => AnchoredGet(w, l, k, found);
    case _ => AnchoredPlain(w, l, k, found);
  }

  /** The sections that touch neither objects nor lease. */
  lemma AnchoredPlain(w: World, l: Life, k: Work, found: bool)
    requires Anchored(w) && Enabled(w, Advance(l, found)) && w.threads[l].pc == Inside(k)
    requires k.CurCheck? || k.CurCompare? || k.CurUnlock? || k.RegCheck? || k.RegUnlock? || k.CmdUnlock?
    ensures Anchored(WorkStep(w, l, k, found))
  {
    var w' := WorkStep(w, l, k, found);
    assert ThreadAnchored(w.objects, l, w.threads[l]);
    AnchoredMove(w, w', l, w'.threads[l].pc);
  }

  lemma AnchoredAdvance(w: World, l: Life, found: bool)
    requires Anchored(w) && Counted(w) && WellFormed(w.lease, w.maxLease) && Enabled(w, Advance(l, found))
    ensures Anchored(Apply(w, Advance(l, found)))
  {
    assert ThreadAnchored(w.objects, l, w.threads[l]);
    match w.threads[l].pc
    case Inside(k) => AnchoredInside(w, l, k, found);
    case Leaving(c, f, o) => AnchoredLeaving(w, l, c, f, o);
    case Waiting(call) => AnchoredGate(w, l, call);
    case Idle =>
  }

  lemma AnchoredLeaving(w: World, l: Life, c: Command, f: nat, o: Outcome)
    requires Anchored(w) && Counted(w) && l in w.threads && w.threads[l].pc == Leaving(c, f, o)
    requires w.threads[l].held != None ==> w.threads[l].held.value in w.objects
    ensures Anchored(LeaveStep(w, l, c, f, o))
  {
    assert ThreadAnchored(w.objects, l, w.threads[l]);
    if w.threads[l].held != None {
      AnchoredPut(w, l, Leaving(c, f, o));
    } else {
      AnchoredMove(w, LeaveStep(w, l, c, f, o), l, Idle);
    }
  }

  lemma AnchoredGate(w: World, l: Life, call: Call)
    requires Anchored(w) && l in w.threads && w.threads[l].pc == Waiting(call)
    ensures Anchored(TryGate(w, l, call))
  {
    var w' := TryGate(w, l, call);
    assert ThreadAnchored(w.objects, l, w.threads[l]);
    AnchoredMove(w, w', l, w'.threads[l].pc);
  }

  lemma AnchoredCall(w: World, s: Step)
    requires Anchored(w) && Enabled(w, s) && (s.SetUid? || s.CallCurrent? || s.CallRegister? || s.CallCommand?)
    ensures Anchored(Apply(w, s))
  {
    var w' := Apply(w, s);
    assert ThreadAnchored(w.objects, s.life, w.threads[s.life]);
    if w'.threads != w.threads {
      AnchoredSame(w, w', s.life, w'.threads[s.life]);
    }
  }

  lemma AnchoredStep(w: World, s: Step)
    requires Anchored(w) && Counted(w) && WellFormed(w.lease, w.maxLease) && Enabled(w, s)
    ensures Anchored(Apply(w, s))
  {
    match s
    case Tick(_) =>
    case OpenFile(_) =>
    case Spawn(addr, number, uid) => AnchoredSpawn(w, addr, number, uid);
    case Exit(l) => AnchoredExit(w, l);
    case Advance(l, found) => AnchoredAdvance(w, l, found);
    case _ => AnchoredCall(w, s);
  }

  lemma NobodyHoldsFree(w: World, a: Addr)
    requires Anchored(w) && a !in w.objects
    ensures HoldersOf(w.threads, a) == {} && w.lease.identity != Some(a)
  {
    forall l | l in w.threads
      ensures w.threads[l].held != Some(a)
    {
      assert ThreadAnchored(w.objects, l, w.threads[l]);
    }
  }

  lemma ExclusiveCall(w: World, s: Step)
    requires Exclusive(w) && Enabled(w, s) && !s.Advance?
    ensures Exclusive(Apply(w, s))
  {
  }

  lemma ExclusiveInside(w: World, l: Life, found: bool)
    requires Exclusive(w) && Enabled(w, Advance(l, found)) && w.threads[l].pc.Inside?
    ensures Exclusive(Apply(w, Advance(l, found)))
  {
  }

  lemma ExclusiveStep(w: World, s: Step)
    requires Exclusive(w) && Enabled(w, s)
    ensures Exclusive(Apply(w, s))
  {
    if !s.Advance? {
      ExclusiveCall(w, s);
    } else if w.threads[s.life].pc.Inside? {
      ExclusiveInside(w, s.life, s.found);
    }
  }
}
