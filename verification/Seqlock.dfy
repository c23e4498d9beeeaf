/** Publication of a configuration to concurrent readers: a seqlock over parallel arrays.
    Every step is one atomic load, store or read-modify-write, interleaved arbitrarily
    between any number of readers (`hook_active`) and writers (`apply_config`), under
    sequential consistency and with the sequence as an unbounded number. */
module Seqlock {
  import opened TargetSet
  import opened Policy

  const ATTEMPTS: nat := 4

  /** The live arrays and words a reader loads. */
  datatype Memory = Memory(uids: seq<nat>, masks: seq<HookSet>, nr: nat, dflt: HookSet, active: HookSet)

  /** One hook_active call: attempt number, the first sequence read, local variables. */
  datatype ReadAt =
    | LoadSeq(attempt: nat)
    | LoadActive(attempt: nat, s1: nat)
    | LoadNr(attempt: nat, s1: nat)
    | LoadDefault(attempt: nat, s1: nat, nr: nat)
    | Search(attempt: nat, s1: nat, lo: int, hi: int, mask: HookSet)
    | LoadMask(attempt: nat, s1: nat, mid: int)
    | Recheck(attempt: nat, s1: nat, result: bool)
    | GaveUp(result: bool)
    | Answered(s1: nat, result: bool)

  /** One apply_config call. */
  datatype WriteAt =
    | Claim | Parse | TryGate | BumpOdd
    | StoreUid(i: nat) | StoreMask(i: nat) | StoreNr | StoreDefault
    | Fold(i: nat, acc: HookSet) | StoreActive(acc: HookSet) | BumpEven
    | OpenGate | Unclaim

  datatype Thread =
    | Idle
    | Reader(uid: nat, hook: nat, started: nat, at: ReadAt)
    | Writer(doing: WriteAt)

  /** `stage` is the staging array; `published[k]` is the configuration in force while the
      sequence is 2k; `origins` are the configurations parsed so far. */
  datatype World = World(
    seq_: nat, gate: bool, staging: bool, stage: Config, mem: Memory,
    published: seq<Config>, origins: set<Config>, threads: map<nat, Thread>)

  datatype Step =
    | CallReader(t: nat, uid: nat, hook: nat)
    | CallWriter(t: nat)
    | Return(t: nat)
    | Read(t: nat)
    | Write(t: nat, parsed: Config)

  function Initial(): World {
    World(0, false, false, INITIAL, Memory(seq(MAX_TARGETS, _ => 0), seq(MAX_TARGETS, _ => {}), 0, {}, {}), [INITIAL], {INITIAL}, map[])
  }

  predicate Finished(th: Thread) {
    th.Reader? && (th.at.GaveUp? || th.at.Answered?)
  }

  /** Array accesses a step is about to make must be in bounds. */
  predicate InBounds(w: World, th: Thread) {
    match th
    case Reader(_, _, _, Search(_, _, lo, hi, _)) => lo <= hi ==> 0 <= lo + (hi - lo) / 2 < |w.mem.uids|
    case Reader(_, _, _, LoadMask(_, _, mid)) => 0 <= mid < |w.mem.masks|
    case Writer(StoreUid(i)) => i < |w.stage.targets| ==> i < |w.mem.uids|
    case Writer(StoreMask(i)) => i < |w.stage.targets| && i < |w.mem.masks|
    case Writer(Fold(i, _)) => i < w.mem.nr ==> i < |w.mem.masks|
    case _ => true
  }

  /** A text is accepted into exactly the configuration it stands for, or rejected. */
  ghost predicate Enabled(w: World, s: Step) {
    match s
    case CallReader(t, _, _) => t in w.threads ==> w.threads[t].Idle?
    case CallWriter(t) => t in w.threads ==> w.threads[t].Idle?
    case Return(t) => t in w.threads && Finished(w.threads[t])
    case Read(t) => t in w.threads && w.threads[t].Reader? && !Finished(w.threads[t]) && InBounds(w, w.threads[t])
    case Write(t, parsed) => t in w.threads && w.threads[t].Writer? && InBounds(w, w.threads[t]) && (parsed == INITIAL || FromText(parsed))
  }

  /** One atomic step of a reader's call. */
  function ReadStep(m: Memory, seqNow: nat, uid: nat, hook: nat, at: ReadAt): ReadAt
    requires at.Search? && at.lo <= at.hi ==> 0 <= at.lo + (at.hi - at.lo) / 2 < |m.uids|
    requires at.LoadMask? ==> 0 <= at.mid < |m.masks|
  {
    match at
    case LoadSeq(a) => if a >= ATTEMPTS then GaveUp(false) else if seqNow % 2 == 1 then LoadSeq(a + 1) else LoadActive(a, seqNow)
    case LoadActive(a, s1) => if hook in m.active then LoadNr(a, s1) else Recheck(a, s1, false)
    case LoadNr(a, s1) => LoadDefault(a, s1, m.nr)
    case LoadDefault(a, s1, nr) => Search(a, s1, 0, nr - 1, m.dflt)
    case Search(a, s1, lo, hi, mask) =>
      if lo > hi then Recheck(a, s1, hook in mask)
      else
        var mid := lo + (hi - lo) / 2;
        if m.uids[mid] == uid then LoadMask(a, s1, mid)
        else if m.uids[mid] < uid then Search(a, s1, mid + 1, hi, mask)
        else Search(a, s1, lo, mid - 1, mask)
    case LoadMask(a, s1, mid) => Recheck(a, s1, hook in m.masks[mid])
    case Recheck(a, s1, result) => if seqNow == s1 then Answered(s1, result) else LoadSeq(a + 1)
    case GaveUp(_) => at
    case Answered(_, _) => at
  }

  function Goto(w: World, t: nat, next: WriteAt): World {
    w.(threads := w.threads[t := Writer(next)])
  }

  /** One atomic step of a writer's call. */
  function WriteStep(w: World, t: nat, k: WriteAt, parsed: Config): World
    requires InBounds(w, Writer(k))
  {
    var n := |w.stage.targets|;
    match k
    case Claim => if w.staging then w.(threads := w.threads[t := Idle]) else Goto(w.(staging := true), t, Parse)
    // INITIAL stands for a rejected payload: the staging is left for nobody to read
    case Parse => if parsed == INITIAL then Goto(w, t, Unclaim) else Goto(w.(stage := parsed, origins := w.origins + {parsed}), t, TryGate)
    case TryGate => if w.gate then Goto(w, t, Unclaim) else Goto(w.(gate := true), t, BumpOdd)
    case BumpOdd => Goto(w.(seq_ := w.seq_ + 1), t, StoreUid(0))
    case StoreUid(i) =>
      if i < n then Goto(w.(mem := w.mem.(uids := w.mem.uids[i := w.stage.targets[i].uid])), t, StoreMask(i)) else Goto(w, t, StoreNr)
    case StoreMask(i) => Goto(w.(mem := w.mem.(masks := w.mem.masks[i := Own(w.stage.targets[i].mask)])), t, StoreUid(i + 1))
    case StoreNr => Goto(w.(mem := w.mem.(nr := n)), t, StoreDefault)
    case StoreDefault => Goto(w.(mem := w.mem.(dflt := Own(w.stage.defaultMask))), t, Fold(0, Own(w.stage.defaultMask)))
    case Fold(i, acc) => if i < w.mem.nr then Goto(w, t, Fold(i + 1, acc + w.mem.masks[i])) else Goto(w, t, StoreActive(acc))
    case StoreActive(acc) => Goto(w.(mem := w.mem.(active := acc)), t, BumpEven)
    case BumpEven => Goto(w.(seq_ := w.seq_ + 1, published := w.published + [w.stage]), t, OpenGate)
    case OpenGate => Goto(w.(gate := false), t, Unclaim)
    case Unclaim => w.(staging := false, threads := w.threads[t := Idle])
  }

  /** Below the app range a call answers 0 at once; otherwise it starts its first attempt. */
  ghost function Apply(w: World, s: Step): World
    requires Enabled(w, s)
  {
    match s
    case CallReader(t, uid, hook) =>
      if IsApp(uid) && w.published != [] then w.(threads := w.threads[t := Reader(uid, hook, |w.published| - 1, LoadSeq(0))]) else w
    case CallWriter(t) => w.(threads := w.threads[t := Writer(Claim)])
    case Return(t) => w.(threads := w.threads[t := Idle])
    case Read(t) =>
      var th := w.threads[t];
      w.(threads := w.threads[t := th.(at := ReadStep(w.mem, w.seq_, th.uid, th.hook, th.at))])
    case Write(t, parsed) => WriteStep(w, t, w.threads[t].doing, parsed)
  }

  ghost predicate IsRun(ws: seq<World>, steps: seq<Step>) {
    && |ws| == |steps| + 1
    && ws[0] == Initial()
    && forall i :: 0 <= i < |steps| ==> Enabled(ws[i], steps[i]) && ws[i + 1] == Apply(ws[i], steps[i])
  }
}
