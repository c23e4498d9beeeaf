/** When a reader of the published configuration gives up, and when it cannot: every failed
    attempt met a writer, and a call no writer disturbs is answered at once. */
module SeqlockAttempts {
  import opened TargetSet
  import opened Policy
  import opened Seqlock
  import opened SeqlockSafety

  /** Attempts a reader has used up. */
  function Spent(at: ReadAt): nat {
    match at
    case LoadSeq(a) => a
    case GaveUp(_) => ATTEMPTS
    case Answered(_, _) => 0
    case _ => at.attempt
  }

  /** The load about to be made ends attempt b: the sequence is odd, or it is not the one the
      attempt started from. */
  predicate Fails(seqNow: nat, at: ReadAt, b: nat) {
    (at == LoadSeq(b) && b < ATTEMPTS && seqNow % 2 == 1) || (at.Recheck? && at.attempt == b && seqNow != at.s1)
  }

  /** From step k to step i thread t only reads: it is one call. */
  ghost predicate OneCall(steps: seq<Step>, t: nat, k: nat, i: nat)
    requires i <= |steps|
  {
    forall m :: k <= m < i && steps[m].t == t ==> steps[m].Read?
  }

  /** Step k was thread t's load that ended attempt b of the call it is in before step i. */
  ghost predicate FailedAt(ws: seq<World>, steps: seq<Step>, t: nat, b: nat, k: nat, i: nat) {
    && k < i <= |steps| < |ws| && steps[k] == Read(t) && t in ws[k].threads && ws[k].threads[t].Reader?
    && Fails(ws[k].seq_, ws[k].threads[t].at, b) && OneCall(steps, t, k, i)
  }

  ghost predicate Failed(ws: seq<World>, steps: seq<Step>, t: nat, b: nat, i: nat) { exists k :: FailedAt(ws, steps, t, b, k, i) }

  lemma WriteKeeps(w: World, u: nat, k: WriteAt, parsed: Config, t: nat)
    requires InBounds(w, Writer(k)) && u != t
    ensures var w' := WriteStep(w, u, k, parsed); (t in w'.threads <==> t in w.threads) && (t in w.threads ==> w'.threads[t] == w.threads[t])
  {
    assert WriteStep(w, u, k, parsed).threads.Keys == w.threads.Keys + {u};
  }

  lemma OthersKeep(w: World, s: Step, t: nat)
    requires Enabled(w, s) && s.t != t
    ensures (t in Apply(w, s).threads <==> t in w.threads) && (t in w.threads ==> Apply(w, s).threads[t] == w.threads[t])
  {
    if s.Write? {
      WriteKeeps(w, s.t, w.threads[s.t].doing, s.parsed, t);
    }
  }

  /** A load uses up an attempt only by failing it. */
  lemma ReadSpends(m: Memory, seqNow: nat, uid: nat, hook: nat, at: ReadAt)
    requires at.Search? && at.lo <= at.hi ==> 0 <= at.lo + (at.hi - at.lo) / 2 < |m.uids|
    requires at.LoadMask? ==> 0 <= at.mid < |m.masks|
    ensures var next := ReadStep(m, seqNow, uid, hook, at);
            Spent(next) <= Spent(at) || (Spent(next) == Spent(at) + 1 && Fails(seqNow, at, Spent(at)))
  {
  }

  lemma FailedLater(ws: seq<World>, steps: seq<Step>, t: nat, b: nat, i: nat)
    requires i < |steps| && Failed(ws, steps, t, b, i) && (steps[i].t == t ==> steps[i].Read?)
    ensures Failed(ws, steps, t, b, i + 1)
  {
    var k :| FailedAt(ws, steps, t, b, k, i);
    assert FailedAt(ws, steps, t, b, k, i + 1);
  }

  /** Thread t's own load. */
  lemma ReadFailed(ws: seq<World>, steps: seq<Step>, i: nat, t: nat, b: nat)
    requires i < |steps| < |ws| && steps[i] == Read(t) && Enabled(ws[i], steps[i]) && ws[i + 1] == Apply(ws[i], steps[i])
    requires forall c: nat :: c < Spent(ws[i].threads[t].at) ==> Failed(ws, steps, t, c, i)
    requires b < Spent(ws[i + 1].threads[t].at)
    ensures Failed(ws, steps, t, b, i + 1)
  {
    var th := ws[i].threads[t];
    ReadSpends(ws[i].mem, ws[i].seq_, th.uid, th.hook, th.at);
    if b < Spent(th.at) {
      FailedLater(ws, steps, t, b, i);
    } else {
      assert FailedAt(ws, steps, t, b, i, i + 1);
    }
  }

  lemma StepFailed(ws: seq<World>, steps: seq<Step>, i: nat, t: nat, b: nat)
    requires i < |steps| < |ws| && Enabled(ws[i], steps[i]) && ws[i + 1] == Apply(ws[i], steps[i])
    requires t in ws[i + 1].threads && ws[i + 1].threads[t].Reader? && b < Spent(ws[i + 1].threads[t].at)
    requires t in ws[i].threads && ws[i].threads[t].Reader? ==> forall c: nat :: c < Spent(ws[i].threads[t].at) ==> Failed(ws, steps, t, c, i)
    ensures Failed(ws, steps, t, b, i + 1)
  {
    var s := steps[i];
    if s.t != t {
      OthersKeep(ws[i], s, t);
      FailedLater(ws, steps, t, b, i);
    } else if s.Read? {
      ReadFailed(ws, steps, i, t, b);
    } else {
      StartsFresh(ws[i], s);
    }
  }

  /** Only a new call makes a reader, with no attempt used up. */
  lemma StartsFresh(w: World, s: Step)
    requires Enabled(w, s) && !s.Read? && s.t in Apply(w, s).threads && Apply(w, s).threads[s.t].Reader?
    ensures Apply(w, s).threads[s.t].at == LoadSeq(0)
  {
    if s.Write? {
      WriterStaysWriter(w, s.t, w.threads[s.t].doing, s.parsed);
    }
  }

  lemma {:induction false} SpentMeansFailed(ws: seq<World>, steps: seq<Step>, i: nat, t: nat, b: nat)
    requires IsRun(ws, steps) && i < |ws| && t in ws[i].threads && ws[i].threads[t].Reader? && b < Spent(ws[i].threads[t].at)
    ensures Failed(ws, steps, t, b, i)
  {
    if i > 0 {
      var j := i - 1;
      assert Enabled(ws[j], steps[j]) && ws[j + 1] == Apply(ws[j], steps[j]);
      if t in ws[j].threads && ws[j].threads[t].Reader? {
        forall c: nat | c < Spent(ws[j].threads[t].at)
          ensures Failed(ws, steps, t, c, j)
        {
          SpentMeansFailed(ws, steps, j, t, c);
        }
      }
      StepFailed(ws, steps, j, t, b);
    }
  }

  /** A reader that gave up answers 0, and each of its four attempts, all in this one call,
      ended in a load that found the sequence odd or no longer the one it started from. */
  lemma GivesUpOnlyAfterFour(ws: seq<World>, steps: seq<Step>, i: nat, t: nat, b: nat)
    requires IsRun(ws, steps) && i < |ws| && t in ws[i].threads && ws[i].threads[t].Reader? && ws[i].threads[t].at.GaveUp?
    ensures !ws[i].threads[t].at.result
    ensures b < ATTEMPTS ==> Failed(ws, steps, t, b, i)
  {
    InvAlways(ws, steps, i);
    var th := ws[i].threads[t];
    assert ReaderKnows(ws[i], th.uid, th.hook, th.started, th.at);
    if b < ATTEMPTS {
      SpentMeansFailed(ws, steps, i, t, b);
    }
  }

  // ---------------------------------------------------------------------------
  // An undisturbed call
  // ---------------------------------------------------------------------------

  /** On its first attempt, from the sequence s. */
  predicate FirstTry(at: ReadAt, s: nat) {
    match at
    case LoadSeq(a) => a == 0
    case GaveUp(_) => false
    case Answered(s1, _) => s1 == s
    case _ => at.attempt == 0 && at.s1 == s
  }

  lemma FirstTryStep(m: Memory, s: nat, uid: nat, hook: nat, at: ReadAt)
    requires at.Search? && at.lo <= at.hi ==> 0 <= at.lo + (at.hi - at.lo) / 2 < |m.uids|
    requires at.LoadMask? ==> 0 <= at.mid < |m.masks|
    requires s % 2 == 0 && FirstTry(at, s)
    ensures FirstTry(ReadStep(m, s, uid, hook, at), s)
  {
  }

  lemma FirstTryKept(w: World, s: Step, t: nat, uid: nat, hook: nat)
    requires Enabled(w, s) && t in w.threads && w.threads[t].Reader? && w.threads[t].uid == uid && w.threads[t].hook == hook
    requires w.seq_ % 2 == 0 && FirstTry(w.threads[t].at, w.seq_) && (s.t == t ==> s.Read?)
    ensures var w' := Apply(w, s);
            t in w'.threads && w'.threads[t].Reader? && w'.threads[t].uid == uid && w'.threads[t].hook == hook && FirstTry(w'.threads[t].at, w.seq_)
  {
    if s.t == t {
      FirstTryStep(w.mem, w.seq_, uid, hook, w.threads[t].at);
    } else {
      OthersKeep(w, s, t);
    }
  }

  /** Thread t reads for uid and hook, on its first attempt, from the sequence s. */
  ghost predicate OnFirst(w: World, t: nat, uid: nat, hook: nat, s: nat) {
    t in w.threads && w.threads[t].Reader? && w.threads[t].uid == uid && w.threads[t].hook == hook && FirstTry(w.threads[t].at, s)
  }

  ghost predicate StepTo(w: World, s: Step, w': World) { Enabled(w, s) && w' == Apply(w, s) }

  lemma IsStep(ws: seq<World>, steps: seq<Step>, k: nat)
    requires IsRun(ws, steps) && 0 < k < |ws|
    ensures StepTo(ws[k - 1], steps[k - 1], ws[k])
  {
    var i := k - 1;
    assert ws[i + 1] == Apply(ws[i], steps[i]);
  }

  ghost predicate StaysFirst(ws: seq<World>, t: nat, uid: nat, hook: nat, s: nat, k: nat)
    requires 0 < k < |ws|
  {
    OnFirst(ws[k - 1], t, uid, hook, s) ==> OnFirst(ws[k], t, uid, hook, s)
  }

  lemma FirstTo(w: World, s: Step, w': World, t: nat, uid: nat, hook: nat, n: nat)
    requires StepTo(w, s, w') && OnFirst(w, t, uid, hook, n) && w.seq_ == n && n % 2 == 0 && (s.t == t ==> s.Read?)
    ensures OnFirst(w', t, uid, hook, n)
  {
    FirstTryKept(w, s, t, uid, hook);
  }

  lemma FirstNext(ws: seq<World>, steps: seq<Step>, t: nat, uid: nat, hook: nat, n: nat, k: nat)
    requires IsRun(ws, steps) && 0 < k < |ws| && ws[k - 1].seq_ == n && n % 2 == 0 && (steps[k - 1].t == t ==> steps[k - 1].Read?)
    ensures StaysFirst(ws, t, uid, hook, n, k)
  {
    IsStep(ws, steps, k);
    if OnFirst(ws[k - 1], t, uid, hook, n) {
      FirstTo(ws[k - 1], steps[k - 1], ws[k], t, uid, hook, n);
    }
  }

  lemma {:induction false} FirstChain(ws: seq<World>, c: nat, i: nat, t: nat, uid: nat, hook: nat, n: nat)
    requires c <= i < |ws| && OnFirst(ws[c], t, uid, hook, n) && forall k :: c < k <= i ==> StaysFirst(ws, t, uid, hook, n, k)
    ensures OnFirst(ws[i], t, uid, hook, n)
  {
    if c < i {
      FirstChain(ws, c, i - 1, t, uid, hook, n);
      assert StaysFirst(ws, t, uid, hook, n, i);
    }
  }

  lemma FirstAlways(ws: seq<World>, steps: seq<Step>, c: nat, i: nat, t: nat, uid: nat, hook: nat, n: nat)
    requires IsRun(ws, steps) && c < i < |ws| && steps[c] == CallReader(t, uid, hook) && IsApp(uid) && OneCall(steps, t, c + 1, i)
    requires n % 2 == 0 && forall m :: c < m < i ==> ws[m].seq_ == n
    ensures OnFirst(ws[i], t, uid, hook, n)
  {
    StartsReading(ws, steps, c, t, uid, hook);
    forall k | c + 1 < k <= i
      ensures StaysFirst(ws, t, uid, hook, n, k)
    {
      assert ws[k - 1].seq_ == n;
      FirstNext(ws, steps, t, uid, hook, n, k);
    }
    FirstChain(ws, c + 1, i, t, uid, hook, n);
  }

  /** While the sequence stays even and unchanged from the start of a call, the call is on its
      first attempt, and it ends (within the bound of ReaderTerminates) with the decision of the
      configuration in force. */
  lemma UndisturbedIsAnswered(ws: seq<World>, steps: seq<Step>, c: nat, i: nat, t: nat, uid: nat, hook: nat)
    requires IsRun(ws, steps) && c < i < |ws| && steps[c] == CallReader(t, uid, hook) && IsApp(uid) && OneCall(steps, t, c + 1, i)
    requires ws[c].seq_ % 2 == 0 && forall m :: c < m < i ==> ws[m].seq_ == ws[c].seq_
    ensures t in ws[i].threads && ws[i].threads[t].Reader? && ws[i].threads[t].uid == uid && ws[i].threads[t].hook == hook
    ensures FirstTry(ws[i].threads[t].at, ws[c].seq_)
    ensures Finished(ws[i].threads[t]) ==>
              ws[c].published != [] && ws[i].threads[t].at == Answered(ws[c].seq_, Decide(ws[c].published[|ws[c].published| - 1], uid, hook))
  {
    FirstAlways(ws, steps, c, i, t, uid, hook, ws[c].seq_);
    if Finished(ws[i].threads[t]) {
      AnswersInForce(ws, steps, c, i, t);
    }
  }

  lemma StartsReading(ws: seq<World>, steps: seq<Step>, c: nat, t: nat, uid: nat, hook: nat)
    requires IsRun(ws, steps) && c < |steps| && steps[c] == CallReader(t, uid, hook) && IsApp(uid)
    ensures t in ws[c + 1].threads && ws[c + 1].threads[t].Reader? && ws[c + 1].threads[t].uid == uid && ws[c + 1].threads[t].hook == hook
    ensures ws[c + 1].threads[t].at == LoadSeq(0)
  {
    InvAlways(ws, steps, c);
    assert Enabled(ws[c], steps[c]) && ws[c + 1] == Apply(ws[c], steps[c]);
  }

  /** An answer at the sequence of state c is that state's configuration's. */
  lemma AnswersInForce(ws: seq<World>, steps: seq<Step>, c: nat, i: nat, t: nat)
    requires IsRun(ws, steps) && c <= i < |ws| && t in ws[i].threads && ws[i].threads[t].Reader? && ws[i].threads[t].at.Answered?
    requires ws[i].threads[t].at.s1 == ws[c].seq_
    ensures ws[c].published != [] && ws[i].threads[t].at.result == Decide(ws[c].published[|ws[c].published| - 1], ws[i].threads[t].uid, ws[i].threads[t].hook)
  {
    InvAlways(ws, steps, c);
    AnswerIsOneConfig(ws, steps, i, t);
    PublishedAlways(ws, steps);
    PublishedChain(ws, c, i);
  }

  ghost predicate GrowsAt(ws: seq<World>, k: nat) { 0 < k < |ws| ==> ws[k - 1].published <= ws[k].published }

  ghost predicate PublishedGrows(ws: seq<World>) { forall k :: GrowsAt(ws, k) }

  lemma {:induction false} PublishedChain(ws: seq<World>, c: nat, i: nat)
    requires PublishedGrows(ws) && c <= i < |ws|
    ensures ws[c].published <= ws[i].published
  {
    if c < i {
      PublishedChain(ws, c, i - 1);
      assert GrowsAt(ws, i);
    }
  }

  lemma PublishedStep(ws: seq<World>, steps: seq<Step>, k: nat)
    requires IsRun(ws, steps)
    ensures GrowsAt(ws, k)
  {
    if 0 < k < |ws| {
      assert Enabled(ws[k - 1], steps[k - 1]) && ws[k] == Apply(ws[k - 1], steps[k - 1]);
    }
  }

  lemma PublishedAlways(ws: seq<World>, steps: seq<Step>)
    requires IsRun(ws, steps)
    ensures PublishedGrows(ws)
  {
    forall k: nat
      ensures GrowsAt(ws, k)
    {
      PublishedStep(ws, steps, k);
    }
  }
}
