/** What every interleaving keeps, and the readers' guarantees that follow. */
module SeqlockSafety {
  import opened TargetSet
  import opened Policy
  import opened Seqlock

  predicate HoldsStaging(th: Thread) { th.Writer? && !th.doing.Claim? }

  /** Between the odd and the even bump. */
  predicate Writing(k: WriteAt) {
    k.StoreUid? || k.StoreMask? || k.StoreNr? || k.StoreDefault? || k.Fold? || k.StoreActive? || k.BumpEven?
  }

  ghost predicate Sized(m: Memory) { |m.uids| == |m.masks| == MAX_TARGETS && m.nr <= MAX_TARGETS }

  /** The first i targets of c are stored. */
  ghost predicate Stored(m: Memory, c: Config, i: nat)
    requires Sized(m) && i <= |c.targets| <= MAX_TARGETS
  {
    forall j :: 0 <= j < i ==> m.uids[j] == c.targets[j].uid && m.masks[j] == Own(c.targets[j].mask)
  }

  /** Memory is exactly configuration c; entries past its last target do not matter. */
  ghost predicate Matches(m: Memory, c: Config) {
    && Sized(m) && |c.targets| <= MAX_TARGETS && m.nr == |c.targets|
    && Stored(m, c, m.nr) && m.dflt == Own(c.defaultMask) && m.active == ActiveMask(c)
  }

  ghost predicate Fits(c: Config) { Sorted(c.targets) && |c.targets| <= MAX_TARGETS }

  ghost predicate Ready(w: World) { w.stage in w.origins && Fits(w.stage) }

  /** Every configuration parsed so far stands for the text it came from. */
  ghost predicate OriginsOk(w: World) { forall c :: c in w.origins ==> Installed(c) }

  /** How far a writer has got. */
  ghost predicate WriterKnows(w: World, k: WriteAt)
    requires Sized(w.mem)
  {
    var c, m := w.stage, w.mem;
    var n := |c.targets|;
    match k
    case Claim => true
    case Parse => true
    case TryGate => Ready(w)
    case BumpOdd => Ready(w)
    case StoreUid(i) => Ready(w) && i <= n && Stored(m, c, i)
    case StoreMask(i) => Ready(w) && i < n && Stored(m, c, i) && m.uids[i] == c.targets[i].uid
    case StoreNr => Ready(w) && Stored(m, c, n)
    case StoreDefault => Ready(w) && Stored(m, c, n) && m.nr == n
    case Fold(i, acc) => Ready(w) && Stored(m, c, n) && m.nr == n && m.dflt == Own(c.defaultMask) && i <= n && acc == OrMasks(c.targets, i, m.dflt)
    case StoreActive(acc) => Ready(w) && Stored(m, c, n) && m.nr == n && m.dflt == Own(c.defaultMask) && acc == ActiveMask(c)
    case BumpEven => Ready(w) && Matches(m, c)
    case OpenGate => true
    case Unclaim => true
  }

  /** Bisection bounds: uid is in c.targets only between lo and hi. */
  ghost predicate Narrowed(c: Config, uid: nat, lo: int, hi: int) {
    && 0 <= lo <= |c.targets| && -1 <= hi < |c.targets| && lo <= hi + 1
    && (forall j :: 0 <= j < lo && j < |c.targets| ==> c.targets[j].uid < uid)
    && (forall j :: hi < j < |c.targets| && j >= 0 ==> uid < c.targets[j].uid)
  }

  /** The first sequence read was even and not newer than now, and no older than the
      configuration in force when the call began. */
  ghost predicate SeqRead(w: World, started: nat, s1: nat) {
    s1 % 2 == 0 && s1 <= w.seq_ && started <= s1 / 2 < |w.published|
  }

  /** What a reader's locals mean. The bounds hold always, doomed attempts included; the
      meaning holds as long as the sequence has not moved. */
  ghost predicate ReaderKnows(w: World, uid: nat, hook: nat, started: nat, at: ReadAt) {
    match at
    case LoadSeq(a) => a <= ATTEMPTS && started < |w.published|
    case LoadActive(a, s1) => a < ATTEMPTS && SeqRead(w, started, s1)
    case LoadNr(a, s1) => a < ATTEMPTS && SeqRead(w, started, s1)
    case LoadDefault(a, s1, nr) =>
      a < ATTEMPTS && SeqRead(w, started, s1) && nr <= MAX_TARGETS && (s1 == w.seq_ ==> nr == |w.published[s1 / 2].targets|)
    case Search(a, s1, lo, hi, mask) =>
      && a < ATTEMPTS && SeqRead(w, started, s1) && 0 <= lo <= hi + 1 && hi < MAX_TARGETS
      && (s1 == w.seq_ ==> Narrowed(w.published[s1 / 2], uid, lo, hi) && mask == Own(w.published[s1 / 2].defaultMask))
    case LoadMask(a, s1, mid) =>
      && a < ATTEMPTS && SeqRead(w, started, s1) && 0 <= mid < MAX_TARGETS
      && (s1 == w.seq_ ==> mid < |w.published[s1 / 2].targets| && w.published[s1 / 2].targets[mid].uid == uid)
    case Recheck(a, s1, result) =>
      a < ATTEMPTS && SeqRead(w, started, s1) && (s1 == w.seq_ ==> result == Decide(w.published[s1 / 2], uid, hook))
    case GaveUp(result) => !result
    case Answered(s1, result) => SeqRead(w, started, s1) && result == Decide(w.published[s1 / 2], uid, hook)
  }

  ghost predicate Shape(w: World) {
    && Sized(w.mem) && w.published != []
    && (forall k :: 0 <= k < |w.published| ==> w.published[k] in w.origins && Fits(w.published[k]))
    && w.seq_ / 2 == |w.published| - 1
    && (w.seq_ % 2 == 0 ==> Matches(w.mem, w.published[|w.published| - 1]))
    && (!w.staging ==> w.seq_ % 2 == 0)
  }

  ghost predicate WritersOk(w: World)
    requires Sized(w.mem)
  {
    && (forall t :: t in w.threads && HoldsStaging(w.threads[t]) ==>
          w.staging && (w.seq_ % 2 == 1 <==> Writing(w.threads[t].doing)) && WriterKnows(w, w.threads[t].doing))
    && (forall t, u :: t in w.threads && u in w.threads && HoldsStaging(w.threads[t]) && HoldsStaging(w.threads[u]) ==> t == u)
  }

  ghost predicate ReadersOk(w: World) {
    forall t :: t in w.threads && w.threads[t].Reader? ==>
      IsApp(w.threads[t].uid) && ReaderKnows(w, w.threads[t].uid, w.threads[t].hook, w.threads[t].started, w.threads[t].at)
  }

  ghost predicate Inv(w: World) { Shape(w) && WritersOk(w) && ReadersOk(w) && OriginsOk(w) }

  lemma InvInit()
    ensures Inv(Initial())
  {
    ZeroOwnsNothing();
  }

  // ---------------------------------------------------------------------------
  // Readers
  // ---------------------------------------------------------------------------

  /** One bisection step on a memory that is c. */
  lemma NarrowStep(m: Memory, c: Config, uid: nat, lo: int, hi: int)
    requires Matches(m, c) && Sorted(c.targets) && Narrowed(c, uid, lo, hi) && lo <= hi
    ensures var mid := lo + (hi - lo) / 2;
            && lo <= mid <= hi && m.uids[mid] == c.targets[mid].uid
            && (m.uids[mid] < uid ==> Narrowed(c, uid, mid + 1, hi))
            && (m.uids[mid] > uid ==> Narrowed(c, uid, lo, mid - 1))
  {
  }

  lemma NarrowedOut(c: Config, uid: nat, lo: int, hi: int, hook: nat)
    requires Narrowed(c, uid, lo, hi) && lo > hi && IsApp(uid)
    ensures Decide(c, uid, hook) == (hook in Own(c.defaultMask))
  {
    ScanMisses(c.targets, uid, Own(c.defaultMask));
  }

  /** The configuration a reader is looking at while its sequence is current. */
  lemma Current(w: World, started: nat, s1: nat)
    requires Shape(w) && SeqRead(w, started, s1) && s1 == w.seq_
    ensures s1 / 2 == |w.published| - 1 && Matches(w.mem, w.published[s1 / 2]) && Fits(w.published[s1 / 2])
  {
  }

  /** The bisection is over: no target has the uid. */
  lemma SearchEnds(w: World, uid: nat, hook: nat, started: nat, at: ReadAt)
    requires Shape(w) && IsApp(uid) && at.Search? && at.lo > at.hi && ReaderKnows(w, uid, hook, started, at)
    ensures ReaderKnows(w, uid, hook, started, Recheck(at.attempt, at.s1, hook in at.mask))
  {
    if at.s1 == w.seq_ {
      Current(w, started, at.s1);
      NarrowedOut(w.published[at.s1 / 2], uid, at.lo, at.hi, hook);
    }
  }

  /** The middle of a search, in the configuration in force. */
  lemma Middle(w: World, uid: nat, hook: nat, started: nat, at: ReadAt, mid: int)
    requires Shape(w) && at.Search? && at.lo <= at.hi && ReaderKnows(w, uid, hook, started, at) && mid == at.lo + (at.hi - at.lo) / 2 < |w.mem.uids|
    ensures at.lo <= mid <= at.hi
    ensures at.s1 == w.seq_ ==>
              var c := w.published[at.s1 / 2];
              && mid < |c.targets| && w.mem.uids[mid] == c.targets[mid].uid
              && (w.mem.uids[mid] < uid ==> Narrowed(c, uid, mid + 1, at.hi))
              && (w.mem.uids[mid] > uid ==> Narrowed(c, uid, at.lo, mid - 1))
  {
    if at.s1 == w.seq_ {
      Current(w, started, at.s1);
      NarrowStep(w.mem, w.published[at.s1 / 2], uid, at.lo, at.hi);
    }
  }

  lemma SearchNarrows(w: World, uid: nat, hook: nat, started: nat, at: ReadAt, mid: int)
    requires Shape(w) && at.Search? && at.lo <= at.hi && ReaderKnows(w, uid, hook, started, at) && mid == at.lo + (at.hi - at.lo) / 2 < |w.mem.uids|
    ensures at.lo <= mid <= at.hi
    ensures w.mem.uids[mid] == uid ==> ReaderKnows(w, uid, hook, started, LoadMask(at.attempt, at.s1, mid))
    ensures w.mem.uids[mid] < uid ==> ReaderKnows(w, uid, hook, started, at.(lo := mid + 1))
    ensures w.mem.uids[mid] > uid ==> ReaderKnows(w, uid, hook, started, at.(hi := mid - 1))
  {
    Middle(w, uid, hook, started, at, mid);
  }

  lemma SearchKnows(w: World, uid: nat, hook: nat, started: nat, at: ReadAt)
    requires Shape(w) && IsApp(uid) && ReaderKnows(w, uid, hook, started, at) && InBounds(w, Reader(uid, hook, started, at)) && at.Search?
    ensures ReaderKnows(w, uid, hook, started, ReadStep(w.mem, w.seq_, uid, hook, at))
  {
    if at.lo > at.hi {
      SearchEnds(w, uid, hook, started, at);
    } else {
      SearchNarrows(w, uid, hook, started, at, at.lo + (at.hi - at.lo) / 2);
    }
  }

  /** A reader's own step, on the memory it sees. */
  lemma ReadKnows(w: World, uid: nat, hook: nat, started: nat, at: ReadAt)
    requires Shape(w) && IsApp(uid) && ReaderKnows(w, uid, hook, started, at) && InBounds(w, Reader(uid, hook, started, at))
    ensures ReaderKnows(w, uid, hook, started, ReadStep(w.mem, w.seq_, uid, hook, at))
  {
    if at.Search? {
      SearchKnows(w, uid, hook, started, at);
    } else if !at.LoadSeq? && !at.GaveUp? && !at.Answered? && at.s1 == w.seq_ {
      Current(w, started, at.s1);
      var c := w.published[at.s1 / 2];
      if at.LoadActive? && hook !in w.mem.active {
        GateIsSound(c, uid, hook);
      } else if at.LoadMask? {
        ScanFinds(c.targets, uid, Own(c.defaultMask), at.mid);
      }
    }
  }

  /** Somebody else's step: the sequence grows, and while it stands still and even so does
      memory. */
  lemma ReaderFrame(w: World, w': World, uid: nat, hook: nat, started: nat, at: ReadAt)
    requires ReaderKnows(w, uid, hook, started, at)
    requires w.published <= w'.published && w.seq_ <= w'.seq_
    ensures ReaderKnows(w', uid, hook, started, at)
  {
  }

  // ---------------------------------------------------------------------------
  // Writers
  // ---------------------------------------------------------------------------

  ghost predicate Holds(w: World, t: nat)
    requires Sized(w.mem)
  {
    && t in w.threads && w.threads[t].Writer?
    && (HoldsStaging(w.threads[t]) ==> w.staging && (w.seq_ % 2 == 1 <==> Writing(w.threads[t].doing)) && WriterKnows(w, w.threads[t].doing))
  }

  lemma WriteShape(w: World, t: nat, k: WriteAt, parsed: Config)
    requires Shape(w) && Holds(w, t) && w.threads[t].doing == k && InBounds(w, Writer(k)) && Fits(parsed)
    ensures Shape(WriteStep(w, t, k, parsed))
  {
  }

  lemma StoreKnows(w: World, t: nat, k: WriteAt, parsed: Config)
    requires Shape(w) && WriterKnows(w, k) && InBounds(w, Writer(k)) && (k.StoreUid? || k.StoreMask? || k.StoreNr?)
    ensures var w' := WriteStep(w, t, k, parsed); Sized(w'.mem) && WriterKnows(w', w'.threads[t].doing)
  {
  }

  lemma FoldKnows(w: World, t: nat, k: WriteAt, parsed: Config)
    requires Shape(w) && WriterKnows(w, k) && InBounds(w, Writer(k)) && (k.StoreDefault? || k.Fold? || k.StoreActive?)
    ensures var w' := WriteStep(w, t, k, parsed); Sized(w'.mem) && WriterKnows(w', w'.threads[t].doing)
  {
  }

  lemma EdgeKnows(w: World, t: nat, k: WriteAt, parsed: Config)
    requires Shape(w) && WriterKnows(w, k) && InBounds(w, Writer(k)) && Fits(parsed)
    requires k.Claim? || k.Parse? || k.TryGate? || k.BumpOdd? || k.BumpEven? || k.OpenGate? || k.Unclaim?
    ensures var w' := WriteStep(w, t, k, parsed); Sized(w'.mem) && (w'.threads[t].Writer? ==> WriterKnows(w', w'.threads[t].doing))
  {
  }

  /** The sequence is odd exactly while the staging owner is between its two bumps. */
  lemma WriteParity(w: World, t: nat, k: WriteAt, parsed: Config)
    requires Shape(w) && Holds(w, t) && w.threads[t].doing == k && InBounds(w, Writer(k))
    ensures var w' := WriteStep(w, t, k, parsed);
            HoldsStaging(w'.threads[t]) ==> w'.staging && (w'.seq_ % 2 == 1 <==> Writing(w'.threads[t].doing))
  {
  }

  lemma WriteKnows(w: World, t: nat, k: WriteAt, parsed: Config)
    requires Shape(w) && Holds(w, t) && w.threads[t].doing == k && InBounds(w, Writer(k)) && Fits(parsed)
    ensures var w' := WriteStep(w, t, k, parsed);
            Sized(w'.mem) && (w'.threads[t].Idle? || (w'.threads[t].Writer? && WriterKnows(w', w'.threads[t].doing)))
  {
    if k.StoreUid? || k.StoreMask? || k.StoreNr? {
      StoreKnows(w, t, k, parsed);
    } else if k.StoreDefault? || k.Fold? || k.StoreActive? {
      FoldKnows(w, t, k, parsed);
    } else {
      EdgeKnows(w, t, k, parsed);
    }
  }

  /** A writer's step touches no other thread, only grows the history, and never changes
      memory while the sequence is even. */
  lemma WriteFrame(w: World, t: nat, k: WriteAt, parsed: Config)
    requires Shape(w) && Holds(w, t) && w.threads[t].doing == k && InBounds(w, Writer(k))
    ensures var w' := WriteStep(w, t, k, parsed);
            && w.published <= w'.published && w.seq_ <= w'.seq_ && w.origins <= w'.origins <= w.origins + {parsed}
            && w'.threads == w.threads[t := w'.threads[t]]
            && (!Writing(k) ==> w'.mem == w.mem)
            && (k.Claim? && w.staging ==> w'.threads[t].Idle? && w' == w.(threads := w'.threads))
  {
  }

  // ---------------------------------------------------------------------------
  // Every step keeps the invariant
  // ---------------------------------------------------------------------------

  lemma ReadersAfterWrite(w: World, t: nat, parsed: Config)
    requires Inv(w) && Enabled(w, Write(t, parsed))
    ensures ReadersOk(Apply(w, Write(t, parsed)))
  {
    var w' := Apply(w, Write(t, parsed));
    assert Holds(w, t);
    WriteFrame(w, t, w.threads[t].doing, parsed);
    forall r | r in w'.threads && w'.threads[r].Reader?
      ensures IsApp(w'.threads[r].uid) && ReaderKnows(w', w'.threads[r].uid, w'.threads[r].hook, w'.threads[r].started, w'.threads[r].at)
    {
      var th := w'.threads[r];
      if r == t {
        WriterStaysWriter(w, t, w.threads[t].doing, parsed);
      }
      assert th == w.threads[r];
      ReaderFrame(w, w', th.uid, th.hook, th.started, th.at);
    }
  }

  lemma WriterStaysWriter(w: World, t: nat, k: WriteAt, parsed: Config)
    requires InBounds(w, Writer(k))
    ensures !WriteStep(w, t, k, parsed).threads[t].Reader?
  {
  }

  /** With another holder of the staging around, this writer was turned away. */
  lemma TurnedAway(w: World, w': World, t: nat, u: nat)
    requires Shape(w) && WritersOk(w) && t in w.threads && u in w.threads && u != t && HoldsStaging(w.threads[u])
    requires w.threads[t] == Writer(Claim) || !HoldsStaging(w.threads[t])
    requires w' == w.(threads := w.threads[t := Idle])
    ensures WritersOk(w')
  {
  }

  lemma WritersAfterWrite(w: World, t: nat, k: WriteAt, parsed: Config)
    requires Shape(w) && WritersOk(w) && t in w.threads && w.threads[t] == Writer(k) && InBounds(w, Writer(k)) && Fits(parsed)
    ensures var w' := WriteStep(w, t, k, parsed); Shape(w') && WritersOk(w')
  {
    assert Holds(w, t);
    WriteShape(w, t, k, parsed);
    WriteFrame(w, t, k, parsed);
    if u :| u in w.threads && u != t && HoldsStaging(w.threads[u]) {
      assert k.Claim? && w.staging;
      TurnedAway(w, WriteStep(w, t, k, parsed), t, u);
    } else {
      SoleAfterWrite(w, t, k, parsed);
    }
  }

  /** The only holder of the staging keeps its part. */
  lemma SoleAfterWrite(w: World, t: nat, k: WriteAt, parsed: Config)
    requires Shape(w) && Holds(w, t) && w.threads[t].doing == k && InBounds(w, Writer(k)) && Fits(parsed)
    requires var w' := WriteStep(w, t, k, parsed); forall u :: u in w'.threads && u != t ==> !HoldsStaging(w'.threads[u])
    ensures WritersOk(WriteStep(w, t, k, parsed))
  {
    WriteParity(w, t, k, parsed);
    WriteKnows(w, t, k, parsed);
    SoleWriter(WriteStep(w, t, k, parsed), t);
  }

  lemma SoleWriter(w: World, t: nat)
    requires Sized(w.mem) && t in w.threads && (w.threads[t].Writer? ==> Holds(w, t))
    requires forall u :: u in w.threads && u != t ==> !HoldsStaging(w.threads[u])
    ensures WritersOk(w)
  {
  }

  lemma InvWrite(w: World, t: nat, parsed: Config)
    requires Inv(w) && Enabled(w, Write(t, parsed))
    ensures Inv(Apply(w, Write(t, parsed)))
  {
    InstalledFits(parsed);
    WritersAfterWrite(w, t, w.threads[t].doing, parsed);
    ReadersAfterWrite(w, t, parsed);
    assert Holds(w, t);
    WriteFrame(w, t, w.threads[t].doing, parsed);
  }

  lemma InvRead(w: World, t: nat)
    requires Inv(w) && Enabled(w, Read(t))
    ensures Inv(Apply(w, Read(t)))
  {
    var th := w.threads[t];
    ReadKnows(w, th.uid, th.hook, th.started, th.at);
    var w' := Apply(w, Read(t));
    forall r | r in w'.threads && w'.threads[r].Reader?
      ensures IsApp(w'.threads[r].uid) && ReaderKnows(w', w'.threads[r].uid, w'.threads[r].hook, w'.threads[r].started, w'.threads[r].at)
    {
      var x := w'.threads[r];
      ReaderFrame(w, w', x.uid, x.hook, x.started, x.at);
    }
    WritersUntouched(w, w', t);
  }

  /** A step that only changes a thread which does not hold the staging. */
  lemma WritersUntouched(w: World, w': World, t: nat)
    requires Shape(w) && WritersOk(w) && w' == w.(threads := w'.threads) && t in w'.threads && w'.threads == w.threads[t := w'.threads[t]]
    requires !HoldsStaging(w'.threads[t])
    ensures Shape(w') && WritersOk(w')
  {
    forall u | u in w'.threads && HoldsStaging(w'.threads[u])
      ensures w'.staging && (w'.seq_ % 2 == 1 <==> Writing(w'.threads[u].doing)) && WriterKnows(w', w'.threads[u].doing)
    {
      assert w.threads[u] == w'.threads[u];
      KnowsSame(w, w', w.threads[u].doing);
    }
  }

  lemma KnowsSame(w: World, w': World, k: WriteAt)
    requires Sized(w.mem) && WriterKnows(w, k) && w' == w.(threads := w'.threads)
    ensures WriterKnows(w', k)
  {
  }

  lemma ReadersUntouched(w: World, w': World, t: nat)
    requires ReadersOk(w) && w' == w.(threads := w'.threads) && t in w'.threads && w'.threads == w.threads[t := w'.threads[t]]
    requires w'.threads[t].Reader? ==> IsApp(w'.threads[t].uid) && w'.threads[t].at == LoadSeq(0) && w'.threads[t].started < |w.published|
    ensures ReadersOk(w')
  {
    forall r | r in w'.threads && w'.threads[r].Reader?
      ensures IsApp(w'.threads[r].uid) && ReaderKnows(w', w'.threads[r].uid, w'.threads[r].hook, w'.threads[r].started, w'.threads[r].at)
    {
      if r != t {
        var x := w.threads[r];
        ReaderFrame(w, w', x.uid, x.hook, x.started, x.at);
      }
    }
  }

  lemma InvStep(w: World, s: Step)
    requires Inv(w) && Enabled(w, s)
    ensures Inv(Apply(w, s))
  {
    match s
    case Write(t, parsed) => InvWrite(w, t, parsed);
    case Read(t) => InvRead(w, t);
    case CallReader(t, uid, _) => if IsApp(uid) { WritersUntouched(w, Apply(w, s), t); ReadersUntouched(w, Apply(w, s), t); }
    case CallWriter(t) => WritersUntouched(w, Apply(w, s), t); ReadersUntouched(w, Apply(w, s), t);
    case Return(t) => WritersUntouched(w, Apply(w, s), t); ReadersUntouched(w, Apply(w, s), t);
  }

  lemma {:induction false} InvAlways(ws: seq<World>, steps: seq<Step>, i: nat)
    requires IsRun(ws, steps) && i < |ws|
    ensures Inv(ws[i])
  {
    if i == 0 {
      InvInit();
    } else {
      InvAlways(ws, steps, i - 1);
      StepOfRun(ws, steps, i - 1);
    }
  }

  lemma StepOfRun(ws: seq<World>, steps: seq<Step>, i: nat)
    requires IsRun(ws, steps) && i < |steps| && Inv(ws[i])
    ensures Inv(ws[i + 1])
  {
    assert Enabled(ws[i], steps[i]) && ws[i + 1] == Apply(ws[i], steps[i]);
    InvStep(ws[i], steps[i]);
  }

  // ---------------------------------------------------------------------------
  // Over whole runs
  // ---------------------------------------------------------------------------

  /** An answer taken at matching even sequence values is the decision of one configuration
      that was in force at some point of the call, never a mix of two: it is the naive rule
      applied to the one text that configuration came from. */
  lemma AnswerIsOneConfig(ws: seq<World>, steps: seq<Step>, i: nat, t: nat)
    requires IsRun(ws, steps) && i < |ws| && t in ws[i].threads && ws[i].threads[t].Reader? && ws[i].threads[t].at.Answered?
    ensures var th := ws[i].threads[t];
            var k := th.at.s1 / 2;
            && th.at.s1 % 2 == 0 && th.started <= k < |ws[i].published| && k <= ws[i].seq_ / 2
            && th.at.result == Decide(ws[i].published[k], th.uid, th.hook)
            && Installed(ws[i].published[k])
            && th.at.result == NaiveRule(ws[i].published[k] != INITIAL, ws[i].published[k].text, th.uid, th.hook)
  {
    InvAlways(ws, steps, i);
    var th := ws[i].threads[t];
    assert ReaderKnows(ws[i], th.uid, th.hook, th.started, th.at);
    var c := ws[i].published[th.at.s1 / 2];
    assert c in ws[i].origins;
    DecideIsNaive(c, th.uid, th.hook);
  }

  /** No call is ever stuck or out of bounds, doomed attempts included. */
  lemma AlwaysInBounds(ws: seq<World>, steps: seq<Step>, i: nat, t: nat)
    requires IsRun(ws, steps) && i < |ws| && t in ws[i].threads
    ensures InBounds(ws[i], ws[i].threads[t])
  {
    InvAlways(ws, steps, i);
    var th := ws[i].threads[t];
    if th.Reader? {
      assert ReaderKnows(ws[i], th.uid, th.hook, th.started, th.at);
    } else if HoldsStaging(th) {
      assert WriterKnows(ws[i], th.doing);
    }
  }

  /** Loads a reader may still make: each of its own steps lowers it, nobody else's does, so
      a call ends after at most 1999 of them, whatever the writers do. */
  function LoadsLeft(at: ReadAt): nat {
    match at
    case LoadSeq(a) => if a > ATTEMPTS then 0 else (ATTEMPTS - a) * 400 + 399
    case LoadActive(a, _) => Within(a, 398)
    case LoadNr(a, _) => Within(a, 397)
    case LoadDefault(a, _, _) => Within(a, 396)
    case Search(a, _, lo, hi, _) => Within(a, if lo <= hi <= lo + 180 then 10 + 2 * (hi - lo) else 9)
    case LoadMask(a, _, _) => Within(a, 8)
    case Recheck(a, _, _) => Within(a, 7)
    case GaveUp(_) => 0
    case Answered(_, _) => 0
  }

  function Within(a: nat, phase: nat): nat {
    if a > ATTEMPTS then 0 else (ATTEMPTS - a) * 400 + phase
  }

  /** The locals are within the bounds every attempt keeps. */
  predicate Bounded(at: ReadAt) {
    match at
    case LoadSeq(a) => a <= ATTEMPTS
    case LoadActive(a, _) => a < ATTEMPTS
    case LoadNr(a, _) => a < ATTEMPTS
    case LoadDefault(a, _, nr) => a < ATTEMPTS && nr <= MAX_TARGETS
    case Search(a, _, lo, hi, _) => a < ATTEMPTS && 0 <= lo <= hi + 1 && hi < MAX_TARGETS
    case LoadMask(a, _, _) => a < ATTEMPTS
    case Recheck(a, _, _) => a < ATTEMPTS
    case GaveUp(_) => false
    case Answered(_, _) => false
  }

  lemma LoadsDecrease(m: Memory, seqNow: nat, uid: nat, hook: nat, at: ReadAt)
    requires Bounded(at) && Sized(m) && (at.LoadMask? ==> 0 <= at.mid < MAX_TARGETS)
    ensures LoadsLeft(ReadStep(m, seqNow, uid, hook, at)) < LoadsLeft(at)
  {
  }

  lemma ReaderTerminates(ws: seq<World>, steps: seq<Step>, i: nat, t: nat)
    requires IsRun(ws, steps) && i < |steps| && steps[i] == Read(t)
    ensures LoadsLeft(ws[i + 1].threads[t].at) < LoadsLeft(ws[i].threads[t].at) <= 1999
  {
    InvAlways(ws, steps, i);
    assert Enabled(ws[i], steps[i]) && ws[i + 1] == Apply(ws[i], steps[i]);
    var th := ws[i].threads[t];
    KnowsBounded(ws[i], th.uid, th.hook, th.started, th.at);
    LoadsDecrease(ws[i].mem, ws[i].seq_, th.uid, th.hook, th.at);
  }

  lemma KnowsBounded(w: World, uid: nat, hook: nat, started: nat, at: ReadAt)
    requires ReaderKnows(w, uid, hook, started, at) && !at.GaveUp? && !at.Answered?
    ensures Bounded(at) && (at.LoadMask? ==> 0 <= at.mid < MAX_TARGETS) && LoadsLeft(at) <= 1999
  {
  }
}
