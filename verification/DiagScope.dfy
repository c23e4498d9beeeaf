/** The diagnostic RAW lease: its record, the decision each gated operation takes,
    and the `Scope` object whose methods update it in place.

    An operation's critical section is a pure function of the lease and of what the
    callbacks return (clock, caller uid, caller identity). The `Scope` methods are the
    imperative form; LeaseMachine interleaves the same sections between threads. */
module DiagScope {
  import opened Options

  /** Address of a kernel pid object; `None` below is the null pointer. */
  type Addr = nat

  const U64_MAX: nat := 0xFFFF_FFFF_FFFF_FFFF

  datatype Phase = Released | Armed | Registered | Active

  datatype Outcome = Ok | Busy | Invalid | Stale | Unavailable

  datatype Lease = Lease(
    identity: Option<Addr>, tid: nat, uid: nat, phase: Phase,
    nonce: nat, deadline: nat, duration: nat)

  const NO_LEASE := Lease(None, 0, 0, Released, 0, 0, 0)

  /** 64-bit unsigned addition, wrapping as the C type does. */
  function Add64(a: nat, b: nat): nat {
    (a + b) % (U64_MAX + 1)
  }

  /** What a critical section leaves behind: its result, the lease, and the identity
      reference the caller must put after dropping the gate. */
  datatype Effect = Effect(outcome: Outcome, lease: Lease, freed: Option<Addr>)

  function Cleared(x: Lease): Lease {
    x.(identity := None, tid := 0, uid := 0, deadline := 0, duration := 0, phase := Released)
  }

  /** Arguments arm refuses before it tries the gate. */
  predicate ArmArgs(maxLease: nat, tid: nat, uid: nat, nonce: nat, duration: nat) {
    tid != 0 && uid != 0 && nonce != 0 && 0 < duration <= maxLease
  }

  function ArmEffect(x: Lease, maxLease: nat, tid: nat, uid: nat, nonce: nat, duration: nat, now: nat): Effect {
    if maxLease > U64_MAX - now then Effect(Invalid, x, None)
    else if nonce == x.nonce then
      var stale := x.phase == Released || now >= x.deadline || x.tid != tid || x.uid != uid || x.duration != duration;
      Effect(if stale then Stale else Ok, x, None)
    else if x.phase != Released && now < x.deadline then Effect(Busy, x, None)
    else Effect(Ok, Lease(None, tid, uid, Armed, nonce, Add64(now, maxLease), duration), x.identity)
  }

  function ActivateEffect(x: Lease, nonce: nat, now: nat): Effect {
    if nonce == 0 || nonce != x.nonce || x.identity == None || now >= x.deadline then Effect(Stale, x, None)
    else if x.phase == Registered then
      if x.duration > U64_MAX - now then Effect(Invalid, x, None)
      else Effect(Ok, x.(deadline := Add64(now, x.duration), phase := Active), None)
    else Effect(if x.phase == Active then Ok else Stale, x, None)
  }

  function RevokeEffect(x: Lease, nonce: nat): Effect {
    if nonce != x.nonce then Effect(Stale, x, None) else Effect(Ok, Cleared(x), x.identity)
  }

  function SnapshotEffect(x: Lease, now: nat): Effect {
    if x.phase != Released && now >= x.deadline then Effect(Ok, Cleared(x), x.identity) else Effect(Ok, x, None)
  }

  /** Registration, first half: everything decided before the caller's identity is taken. */
  function RegisterGate(x: Lease, nonce: nat, now: nat, uid: nat): Outcome {
    if nonce == 0 || nonce != x.nonce || x.phase == Released || now >= x.deadline then Stale
    else if uid != x.uid then Invalid
    else Ok
  }

  /** Registration, second half, on an identity the caller holds a reference to: when
      `taken`, the lease has become the owner of that reference. */
  datatype Adoption = Adoption(outcome: Outcome, lease: Lease, taken: bool)

  function RegisterAdopt(x: Lease, identity: Addr, number: nat): Adoption {
    if number != x.tid then Adoption(Invalid, x, false)
    else if x.identity != None && x.identity != Some(identity) then Adoption(Stale, x, false)
    else if x.phase == Armed then Adoption(Ok, x.(identity := Some(identity), phase := Registered), true)
    else Adoption(Ok, x, false)
  }

  predicate MayBeRaw(x: Lease, now: nat, uid: nat) {
    x.phase == Active && now < x.deadline && uid == x.uid
  }

  /** What every critical section keeps. */
  predicate WellFormed(x: Lease, maxLease: nat) {
    && (x.identity != None <==> x.phase == Registered || x.phase == Active)
    && (x.phase == Released ==> x.tid == 0 && x.uid == 0 && x.deadline == 0 && x.duration == 0)
    && (x.phase != Released ==> x.tid != 0 && x.uid != 0 && x.nonce != 0 && 0 < x.duration <= maxLease)
    && x.deadline <= U64_MAX
  }

  /** No deadline sum wraps: an accepted arm or activation stores the exact sum. */
  lemma DeadlinesDoNotWrap(x: Lease, maxLease: nat, tid: nat, uid: nat, nonce: nat, duration: nat, now: nat)
    requires WellFormed(x, maxLease) && now <= U64_MAX
    ensures var e := ArmEffect(x, maxLease, tid, uid, nonce, duration, now);
            e.lease != x ==> e.outcome == Ok && e.lease.deadline == now + maxLease
    ensures var e := ActivateEffect(x, nonce, now);
            e.lease != x ==> e.outcome == Ok && e.lease.deadline == now + x.duration
  {
    if maxLease <= U64_MAX - now {
      assert Add64(now, maxLease) == now + maxLease;
    }
    if x.duration <= U64_MAX - now {
      assert Add64(now, x.duration) == now + x.duration;
    }
  }

  /** While a lease lives, no operation quoting its own nonce moves its deadline,
      except the one activation of a registered lease; afterwards only clearing is left. */
  lemma ReplayNeverExtends(x: Lease, maxLease: nat, tid: nat, uid: nat, duration: nat, now: nat, id: Addr, number: nat)
    requires WellFormed(x, maxLease) && now <= U64_MAX && x.nonce != 0
    ensures ArmEffect(x, maxLease, tid, uid, x.nonce, duration, now).lease == x
    ensures RegisterAdopt(x, id, number).lease.deadline == x.deadline
    ensures x.phase != Registered ==> ActivateEffect(x, x.nonce, now).lease == x
    ensures now >= x.deadline ==> ActivateEffect(x, x.nonce, now).lease == x
    ensures x.phase == Released ==> ArmEffect(x, maxLease, tid, uid, x.nonce, duration, now).outcome in {Stale, Invalid}
  {
  }

  datatype Snapshot = Snapshot(phase: Phase, tid: nat, uid: nat, nonce: nat, remaining: nat)

  /** remaining_ms as the readback prints it: nanoseconds rounded up, in 64-bit arithmetic. */
  function RemainingMs(remaining: nat): nat {
    Add64(remaining, 999_999) / 1_000_000
  }

  /** The callbacks as one call sees them. */
  datatype Env = Env(now: nat, uid: nat, identity: Option<Addr>, number: nat)

  /** The scope object. `taken` and `released` count the identity references obtained
      from and returned to the kernel through it. */
  class Scope {
    var gate: bool
    var identity: Option<Addr>
    var tid: nat
    var uid: nat
    var phase: Phase
    var nonce: nat
    var deadline: nat
    var duration: nat
    const maxLease: nat
    var taken: nat
    var released: nat

    function View(): Lease
      reads this
    {
      Lease(identity, tid, uid, phase, nonce, deadline, duration)
    }

    /** References taken but not returned are exactly the one the lease owns. */
    ghost predicate Valid()
      reads this
    {
      && WellFormed(View(), maxLease)
      && taken == released + (if identity != None then 1 else 0)
    }

    constructor (maxLease: nat)
      ensures Valid() && !gate && View() == NO_LEASE && this.maxLease == maxLease
    {
      this.maxLease := maxLease;
      gate, identity, phase := false, None, Released;
      tid, uid, nonce, deadline, duration := 0, 0, 0, 0, 0;
      taken, released := 0, 0;
    }

    method TryLock() returns (won: bool)
      modifies `gate
      ensures gate && won == !old(gate)
    {
      won := !gate;
      gate := true;
    }

    method Put(freed: Option<Addr>)
      modifies `released
      ensures released == old(released) + (if freed != None then 1 else 0)
    {
      if freed != None {
        released := released + 1;
      }
    }

    /** Everything but the nonce, which stays to refuse its own re-arming. */
    predicate IsClear()
      reads this
    {
      phase == Released && identity == None && tid == 0 && uid == 0 && deadline == 0 && duration == 0
    }

    method Clear() returns (freed: Option<Addr>)
      modifies `identity, `tid, `uid, `deadline, `duration, `phase
      ensures freed == old(identity) && View() == Cleared(old(View())) && IsClear()
    {
      freed := identity;
      identity := None;
      tid, uid := 0, 0;
      deadline, duration := 0, 0;
      phase := Released;
    }

    method Current(env: Env) returns (allowed: bool)
      requires Valid()
      modifies `gate, `taken, `released
      ensures Valid() && gate == old(gate) && View() == old(View())
      ensures allowed <==> !gate && phase == Active && env.now < deadline && env.uid == uid && env.identity != None && env.identity == identity
    {
      allowed := false;
      if identity == None {
        return;
      }
      var won := TryLock();
      if !won {
        return;
      }
      if phase == Active && env.now < deadline && env.uid == uid {
        if env.identity != None {
          taken := taken + 1;
        }
        allowed := env.identity != None && env.identity == identity;
        Put(env.identity);
      }
      gate := false;
    }

    /** The section of an arm, under the gate; `freed` is the reference still to be put. */
    method ArmSection(t: nat, u: nat, n: nat, d: nat, now: nat) returns (result: Outcome, freed: Option<Addr>)
      requires now + maxLease <= U64_MAX
      modifies `identity, `tid, `uid, `phase, `nonce, `deadline, `duration
      ensures var live := old(phase) != Released && now < old(deadline);
              if n == old(nonce) then
                View() == old(View()) && freed == None && result == if live && (old(tid), old(uid), old(duration)) == (t, u, d) then Ok else Stale
              else if live then View() == old(View()) && freed == None && result == Busy
              else result == Ok && freed == old(identity) && View() == Lease(None, t, u, Armed, n, now + maxLease, d)
    {
      freed, result := None, Ok;
      if n == nonce {
        if phase == Released || now >= deadline || tid != t || uid != u || duration != d {
          result := Stale;
        }
      } else if phase != Released && now < deadline {
        result := Busy;
      } else {
        freed := Clear();
        tid := t;
        uid := u;
        nonce := n;
        duration := d;
        deadline := Add64(now, maxLease);
        phase := Armed;
      }
    }

    method Arm(t: nat, u: nat, n: nat, d: nat, env: Env) returns (result: Outcome)
      requires Valid() && env.now <= U64_MAX
      modifies this
      ensures Valid() && gate == old(gate)
      ensures maxLease == 0 ==> result == Unavailable && View() == old(View())
      ensures maxLease != 0 && !ArmArgs(maxLease, t, u, n, d) ==> result == Invalid && View() == old(View())
      ensures maxLease != 0 && ArmArgs(maxLease, t, u, n, d) && gate ==> result == Busy && View() == old(View())
      ensures maxLease != 0 && ArmArgs(maxLease, t, u, n, d) && !gate ==>
                var e := ArmEffect(old(View()), maxLease, t, u, n, d, env.now); result == e.outcome && View() == e.lease
      ensures maxLease != 0 && t != 0 && u != 0 && n != 0 && 0 < d <= maxLease && !gate && env.now + maxLease <= U64_MAX ==>
                var live := old(phase) != Released && env.now < old(deadline);
                if n == old(nonce) then View() == old(View()) && (result == Ok <==> live && (old(tid), old(uid), old(duration)) == (t, u, d))
                else if live then View() == old(View()) && result == Busy
                else result == Ok && View() == Lease(None, t, u, Armed, n, env.now + maxLease, d)
    {
      if maxLease == 0 {
        return Unavailable;
      }
      if t == 0 || u == 0 || n == 0 || d == 0 || d > maxLease {
        return Invalid;
      }
      var won := TryLock();
      if !won {
        return Busy;
      }
      var freed: Option<Addr> := None;
      if maxLease > U64_MAX - env.now {
        result := Invalid;
      } else {
        result, freed := ArmSection(t, u, n, d, env.now);
      }
      gate := false;
      Put(freed);
    }

    method Register(n: nat, env: Env) returns (result: Outcome)
      requires Valid()
      modifies this
      ensures Valid() && gate == old(gate)
      ensures gate ==> result == Busy && View() == old(View())
      ensures !gate && RegisterGate(old(View()), n, env.now, env.uid) != Ok ==>
                result == RegisterGate(old(View()), n, env.now, env.uid) && View() == old(View())
      ensures !gate && RegisterGate(old(View()), n, env.now, env.uid) == Ok && env.identity == None ==>
                result == Unavailable && View() == old(View())
      ensures !gate && RegisterGate(old(View()), n, env.now, env.uid) == Ok && env.identity != None ==>
                var a := RegisterAdopt(old(View()), env.identity.value, env.number);
                result == a.outcome && View() == a.lease
      ensures result == Ok ==>
                && !gate && n == old(nonce) && n != 0 && old(phase) != Released && env.now < old(deadline)
                && env.uid == old(uid) && env.number == old(tid) && env.identity != None && identity == env.identity
                && phase == (if old(phase) == Armed then Registered else old(phase))
                && (tid, uid, nonce, deadline, duration) == old((tid, uid, nonce, deadline, duration))
      ensures result != Ok ==> View() == old(View())
      ensures (!gate && n == old(nonce) && n != 0 && old(phase) == Armed && env.now < old(deadline) && env.uid == old(uid) &&
               env.identity != None && env.number == old(tid)) ==> result == Ok
    {
      var won := TryLock();
      if !won {
        return Busy;
      }
      result := Ok;
      if n == 0 || n != nonce || phase == Released || env.now >= deadline {
        result := Stale;
      } else if env.uid != uid {
        result := Invalid;
      } else if env.identity == None {
        result := Unavailable;
      } else {
        var held := env.identity;
        taken := taken + 1;
        if env.number != tid {
          result := Invalid;
        } else if identity != None && identity != held {
          result := Stale;
        } else if phase == Armed {
          identity := held;
          held := None;
          phase := Registered;
        }
        Put(held);
      }
      gate := false;
    }

    method Activate(n: nat, env: Env) returns (result: Outcome)
      requires Valid() && env.now <= U64_MAX
      modifies this
      ensures Valid() && gate == old(gate)
      ensures if gate then result == Busy && View() == old(View())
              else var e := ActivateEffect(old(View()), n, env.now); result == e.outcome && View() == e.lease
      ensures !gate ==>
                var live := n != 0 && n == old(nonce) && old(identity) != None && env.now < old(deadline);
                if live && old(phase) == Registered && env.now + old(duration) <= U64_MAX then
                  && result == Ok && phase == Active && deadline == env.now + duration
                  && (identity, tid, uid, nonce, duration) == old((identity, tid, uid, nonce, duration))
                else
                  View() == old(View()) && (result == Ok <==> live && phase == Active)
    {
      var won := TryLock();
      if !won {
        return Busy;
      }
      result := Ok;
      if n == 0 || n != nonce || identity == None || env.now >= deadline {
        result := Stale;
      } else if phase == Registered {
        if duration > U64_MAX - env.now {
          result := Invalid;
        } else {
          deadline := Add64(env.now, duration);
          phase := Active;
        }
      } else if phase != Active {
        result := Stale;
      }
      gate := false;
    }

    method Revoke(n: nat) returns (result: Outcome)
      requires Valid()
      modifies this
      ensures Valid() && gate == old(gate)
      ensures n == 0 ==> result == Invalid && View() == old(View())
      ensures n != 0 ==> if gate then result == Busy && View() == old(View())
                         else var e := RevokeEffect(old(View()), n); result == e.outcome && View() == e.lease
      ensures n != 0 && !gate && n == old(nonce) ==> result == Ok && IsClear() && nonce == n
      ensures n != 0 && !gate && n != old(nonce) ==> result == Stale && View() == old(View())
    {
      if n == 0 {
        return Invalid;
      }
      var won := TryLock();
      if !won {
        return Busy;
      }
      if n != nonce {
        gate := false;
        return Stale;
      }
      var freed := Clear();
      gate := false;
      Put(freed);
      result := Ok;
    }

    /** Readback: a lease it reports as live has time left, and its millisecond figure
        is never zero and never understates what is left. */
    method ReadBack(env: Env) returns (result: Outcome, snap: Snapshot)
      requires Valid()
      modifies this
      ensures Valid() && gate == old(gate)
      ensures gate ==> result == Busy && View() == old(View())
      ensures !gate ==> result == Ok && View() == SnapshotEffect(old(View()), env.now).lease
      ensures !gate && old(phase) != Released && env.now >= old(deadline) ==> IsClear() && nonce == old(nonce)
      ensures !gate && (old(phase) == Released || env.now < old(deadline)) ==> View() == old(View())
      ensures result == Ok ==> snap.phase == phase && snap.tid == tid && snap.uid == uid && snap.nonce == nonce
      ensures result == Ok && phase != Released ==> snap.remaining == deadline - env.now > 0
      ensures result == Ok && phase == Released ==> snap.remaining == 0
      ensures result == Ok && phase != Released && snap.remaining <= U64_MAX - 999_999 ==>
                RemainingMs(snap.remaining) >= 1 && (RemainingMs(snap.remaining) - 1) * 1_000_000 < snap.remaining <= RemainingMs(snap.remaining) * 1_000_000
    {
      snap := Snapshot(Released, 0, 0, 0, 0);
      var won := TryLock();
      if !won {
        return Busy, snap;
      }
      var freed: Option<Addr> := None;
      if phase != Released && env.now >= deadline {
        freed := Clear();
      }
      snap := Snapshot(phase, tid, uid, nonce, if phase != Released then deadline - env.now else 0);
      gate := false;
      Put(freed);
      result := Ok;
    }
  }
}
