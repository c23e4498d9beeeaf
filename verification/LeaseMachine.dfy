/** Whole runs of the diagnostic lease: any number of kernel threads call `current`,
    `register`, the root commands and the file-handle close, one small step at a time,
    while threads are spawned, change uid and exit, pid objects are recycled once their
    reference count reaches zero, and the 64-bit clock advances. */
module LeaseMachine {
  import opened Options
  import opened DiagScope

  /** A thread lifetime. Unlike tids and addresses it is never reused. */
  type Life = nat

  /** A refcounted pid object: the lifetime it stands for, its number, its references. */
  datatype PidObject = PidObject(life: Life, number: nat, refs: nat)

  datatype Command =
    | ArmCmd(tid: nat, uid: nat, nonce: nat, duration: nat)
    | ActivateCmd(nonce: nat)
    | RevokeCmd(nonce: nat)
    | SnapshotCmd
    | CloseCmd(nonce: nat)

  datatype Call = CurrentCall | RegisterCall(nonce: nat) | CommandCall(cmd: Command, file: nat)

  /** What an operation read when it checked: its caller's uid and the clock. */
  datatype Reading = Reading(uid: nat, time: nat)

  /** Steps taken while owning the gate; `at` is what the operation read. */
  datatype Work =
    | CurCheck | CurGet(at: Reading) | CurCompare(at: Reading) | CurPut(at: Reading, allowed: bool) | CurUnlock(at: Reading, allowed: bool)
    | RegCheck(nonce: nat) | RegGet(nonce: nat, at: Reading) | RegAdopt(nonce: nat, at: Reading) | RegPut | RegUnlock
    | CmdBody(cmd: Command, file: nat) | CmdUnlock(cmd: Command, file: nat, outcome: Outcome)

  /** Where a thread stands: no call, about to try the gate, inside it, or past it. */
  datatype Pc =
    | Idle
    | Waiting(call: Call)
    | Inside(work: Work)
    | Leaving(cmd: Command, file: nat, outcome: Outcome)

  /** What happened, in order. A registration, an activation and a revoke or close carry what
      their caller brought (the nonce it quoted, its uid), not what the lease holds; so does a
      RAW answer its caller's uid. */
  datatype Event =
    | ArmedEv(nonce: nat, tid: nat, uid: nat, duration: nat, time: nat)
    | RegisteredEv(nonce: nat, life: Life, number: nat, uid: nat, time: nat)
    | ActivatedEv(nonce: nat, time: nat)
    | ClearedEv(nonce: nat, cause: Cause, time: nat)
    | RawEv(life: Life, uid: nat, time: nat)

  datatype Cause = Expired | Revoked(quoted: nat) | Closed(quoted: nat)

  /** `held` is the local reference still to be put, if any. */
  datatype Thread = Thread(addr: Addr, uid: nat, held: Option<Addr>, pc: Pc)

  /** Positions in the log of the live grant's arm, registration and activation. */
  datatype Marks = Marks(arm: nat, reg: nat, act: nat)

  datatype World = World(
    maxLease: nat,
    clock: nat,
    gate: bool,
    lease: Lease,
    objects: map<Addr, PidObject>,
    threads: map<Life, Thread>,
    nextLife: Life,
    files: map<nat, nat>,
    taken: nat,
    released: nat,
    log: seq<Event>,
    marks: Marks)

  datatype Step =
    | Tick(delta: nat)
    | Spawn(addr: Addr, number: nat, uid: nat)
    | Exit(life: Life)
    | SetUid(life: Life, uid: nat)
    | OpenFile(file: nat)
    | CallCurrent(life: Life)
    | CallRegister(life: Life, nonce: nat)
    | CallCommand(life: Life, cmd: Command, file: nat)
    | Advance(life: Life, found: bool)

  function Initial(maxLease: nat): World {
    World(maxLease, 0, false, NO_LEASE, map[], map[], 0, map[], 0, 0, [], Marks(0, 0, 0))
  }

  function SetPc(w: World, l: Life, pc: Pc): World
    requires l in w.threads
  {
    w.(threads := w.threads[l := w.threads[l].(pc := pc)])
  }

  function SetHeld(w: World, l: Life, held: Option<Addr>, pc: Pc): World
    requires l in w.threads
  {
    w.(threads := w.threads[l := w.threads[l].(held := held, pc := pc)])
  }

  function TakeRef(w: World, a: Addr): World
    requires a in w.objects
  {
    w.(objects := w.objects[a := w.objects[a].(refs := w.objects[a].refs + 1)], taken := w.taken + 1)
  }

  /** Drop one reference; the object's address becomes reusable with the last one. */
  function DropRef(objects: map<Addr, PidObject>, a: Addr): map<Addr, PidObject>
    requires a in objects
  {
    if objects[a].refs <= 1 then objects - {a} else objects[a := objects[a].(refs := objects[a].refs - 1)]
  }

  function PutRef(w: World, a: Addr): World
    requires a in w.objects
  {
    w.(objects := DropRef(w.objects, a), released := w.released + 1)
  }

  /** Checks the adapters and entry points make before the gate is tried. */
  predicate Admissible(w: World, l: Life, cmd: Command, file: nat)
    requires l in w.threads
  {
    match cmd
    case ArmCmd(tid, uid, nonce, duration) =>
      w.threads[l].uid == 0 && file in w.files && w.maxLease != 0 && ArmArgs(w.maxLease, tid, uid, nonce, duration)
    case ActivateCmd(_) => w.threads[l].uid == 0 && file in w.files
    case RevokeCmd(nonce) => w.threads[l].uid == 0 && file in w.files && nonce != 0
    case SnapshotCmd => w.threads[l].uid == 0
    case CloseCmd(nonce) => file in w.files && nonce != 0 && nonce == w.files[file]
  }

  /** The clock stays a 64-bit value; only idle threads exit or start a call; an address
      is handed out again only when no object lives there. */
  predicate Enabled(w: World, s: Step) {
    match s
    case Tick(delta) => w.clock + delta <= U64_MAX
    case Spawn(addr, _, _) => addr !in w.objects
    case Exit(l) => l in w.threads && w.threads[l].pc == Idle && w.threads[l].addr in w.objects
    case SetUid(l, _) => l in w.threads
    case OpenFile(f) => f !in w.files
    case CallCurrent(l) => l in w.threads && w.threads[l].pc == Idle
    case CallRegister(l, _) => l in w.threads && w.threads[l].pc == Idle
    case CallCommand(l, cmd, file) => l in w.threads && w.threads[l].pc == Idle && Admissible(w, l, cmd, file)
    case Advance(l, _) =>
      && l in w.threads && w.threads[l].pc != Idle && w.threads[l].addr in w.objects
      && (w.threads[l].held != None ==> w.threads[l].held.value in w.objects)
      && (w.threads[l].pc.Inside? && NeedsHeld(w.threads[l].pc.work) ==> w.threads[l].held != None)
  }

  /** Steps that use the reference taken just before. */
  predicate NeedsHeld(k: Work) {
    k.CurCompare? || k.CurPut? || k.RegAdopt? || k.RegPut?
  }

  function CommandEffect(x: Lease, maxLease: nat, cmd: Command, now: nat): Effect {
    match cmd
    case ArmCmd(tid, uid, nonce, duration) => ArmEffect(x, maxLease, tid, uid, nonce, duration, now)
    case ActivateCmd(nonce) => ActivateEffect(x, nonce, now)
    case RevokeCmd(nonce) => RevokeEffect(x, nonce)
    case CloseCmd(nonce) => RevokeEffect(x, nonce)
    case SnapshotCmd => SnapshotEffect(x, now)
  }

  /** The events of a command that changed the lease from x to y. */
  function CommandEvents(x: Lease, y: Lease, cmd: Command, now: nat): seq<Event> {
    var ended := if x.phase == Released then [] else
      [ClearedEv(x.nonce, if cmd.RevokeCmd? then Revoked(cmd.nonce) else if cmd.CloseCmd? then Closed(cmd.nonce) else Expired, now)];
    if x == y then []
    else match cmd
      case ArmCmd(_, _, _, _) => ended + [ArmedEv(y.nonce, y.tid, y.uid, y.duration, now)]
      case ActivateCmd(nonce) => [ActivatedEv(nonce, now)]
      case _ => ended
  }

  /** Run a command's critical section. */
  function CommandBody(w: World, l: Life, cmd: Command, file: nat): World
    requires l in w.threads
  {
    var e := CommandEffect(w.lease, w.maxLease, cmd, w.clock);
    var log := w.log + CommandEvents(w.lease, e.lease, cmd, w.clock);
    var marks := if e.lease == w.lease then w.marks
                 else if cmd.ArmCmd? then w.marks.(arm := |log| - 1)
                 else if cmd.ActivateCmd? then w.marks.(act := |log| - 1)
                 else w.marks;
    SetHeld(w.(lease := e.lease, log := log, marks := marks), l, e.freed, Inside(CmdUnlock(cmd, file, e.outcome)))
  }

  function AdoptBody(w: World, l: Life, nonce: nat, at: Reading, held: Addr): World
    requires l in w.threads && held in w.objects
  {
    var a := RegisterAdopt(w.lease, held, w.objects[held].number);
    if a.taken then
      SetHeld(w.(lease := a.lease,
                 log := w.log + [RegisteredEv(nonce, w.objects[held].life, w.objects[held].number, at.uid, at.time)],
                 marks := w.marks.(reg := |w.log|)), l, None, Inside(RegUnlock))
    else SetPc(w, l, Inside(RegPut))
  }

  /** The compare-and-swap on the gate: `current` and `register` give up at once when it
      is taken, a command reports BUSY. */
  function TryGate(w: World, l: Life, call: Call): World
    requires l in w.threads
  {
    if w.gate then SetPc(w, l, if call.CommandCall? then Leaving(call.cmd, call.file, Busy) else Idle)
    else
      var first := match call
        case CurrentCall => CurCheck
        case RegisterCall(n) => RegCheck(n)
        case CommandCall(c, f) => CmdBody(c, f);
      SetPc(w.(gate := true), l, Inside(first))
  }

  /** One step inside the gate. `found` is whether `current_identity` returned an
      identity, where the step asks for one. */
  function WorkStep(w: World, l: Life, k: Work, found: bool): World
    requires Enabled(w, Advance(l, found)) && w.threads[l].pc == Inside(k)
  {
    var t := w.threads[l];
    match k
    // vpnhide_diag_current
    case CurCheck =>
      var at := Reading(t.uid, w.clock);
      SetPc(w, l, Inside(if MayBeRaw(w.lease, at.time, at.uid) then CurGet(at) else CurUnlock(at, false)))
    case CurGet(at) =>
      if found then SetHeld(TakeRef(w, t.addr), l, Some(t.addr), Inside(CurCompare(at))) else SetPc(w, l, Inside(CurUnlock(at, false)))
    case CurCompare(at) => SetPc(w, l, Inside(CurPut(at, w.lease.identity == t.held)))
    case CurPut(at, allowed) => SetHeld(PutRef(w, t.held.value), l, None, Inside(CurUnlock(at, allowed)))
    case CurUnlock(at, allowed) =>
      SetPc(w.(gate := false, log := if allowed then w.log + [RawEv(l, at.uid, at.time)] else w.log), l, Idle)
    // vpnhide_diag_register
    case RegCheck(n) =>
      var at := Reading(t.uid, w.clock);
      SetPc(w, l, Inside(if RegisterGate(w.lease, n, at.time, at.uid) == Ok then RegGet(n, at) else RegUnlock))
    case RegGet(n, at) =>
      if found then SetHeld(TakeRef(w, t.addr), l, Some(t.addr), Inside(RegAdopt(n, at))) else SetPc(w, l, Inside(RegUnlock))
    case RegAdopt(n, at) => AdoptBody(w, l, n, at, t.held.value)
    case RegPut => SetHeld(PutRef(w, t.held.value), l, None, Inside(RegUnlock))
    case RegUnlock => SetPc(w.(gate := false), l, Idle)
    // arm, activate, revoke, snapshot, handle close
    case CmdBody(c, f) => CommandBody(w, l, c, f)
    case CmdUnlock(c, f, o) => SetPc(w.(gate := false), l, Leaving(c, f, o))
  }

  /** After the gate: put the reference a clear handed out, then return; a successful arm
      is remembered by its file handle, a closed handle disappears. */
  function LeaveStep(w: World, l: Life, c: Command, f: nat, o: Outcome): World
    requires l in w.threads && (w.threads[l].held != None ==> w.threads[l].held.value in w.objects)
  {
    if w.threads[l].held != None then SetHeld(PutRef(w, w.threads[l].held.value), l, None, Leaving(c, f, o))
    else
      var files := if c.ArmCmd? && o == Ok then w.files[f := c.nonce] else if c.CloseCmd? then w.files - {f} else w.files;
      SetPc(w.(files := files), l, Idle)
  }

  function AdvanceThread(w: World, l: Life, found: bool): World
    requires Enabled(w, Advance(l, found))
  {
    match w.threads[l].pc
    case Idle => w
    case Waiting(call) => TryGate(w, l, call)
    case Inside(k) => WorkStep(w, l, k, found)
    case Leaving(c, f, o) => LeaveStep(w, l, c, f, o)
  }

  function Apply(w: World, s: Step): World
    requires Enabled(w, s)
  {
    match s
    case Tick(delta) => w.(clock := w.clock + delta)
    case Spawn(addr, number, uid) =>
      w.(objects := w.objects[addr := PidObject(w.nextLife, number, 1)],
         threads := w.threads[w.nextLife := Thread(addr, uid, None, Idle)],
         nextLife := w.nextLife + 1)
    case Exit(l) => w.(objects := DropRef(w.objects, w.threads[l].addr), threads := w.threads - {l})
    case SetUid(l, uid) => w.(threads := w.threads[l := w.threads[l].(uid := uid)])
    case OpenFile(f) => w.(files := w.files[f := 0])
    // the unlocked peek at `identity`: nothing registered, nothing to ask
    case CallCurrent(l) => if w.lease.identity == None then w else SetPc(w, l, Waiting(CurrentCall))
    case CallRegister(l, nonce) => SetPc(w, l, Waiting(RegisterCall(nonce)))
    case CallCommand(l, cmd, file) => SetPc(w, l, Waiting(CommandCall(cmd, file)))
    case Advance(l, found) => AdvanceThread(w, l, found)
  }

  /** A run: the worlds visited and the steps between them. */
  ghost predicate IsRun(maxLease: nat, ws: seq<World>, steps: seq<Step>) {
    && |ws| == |steps| + 1
    && ws[0] == Initial(maxLease)
    && forall i :: 0 <= i < |steps| ==> Enabled(ws[i], steps[i]) && ws[i + 1] == Apply(ws[i], steps[i])
  }
}
