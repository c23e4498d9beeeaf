/** The `.ko` control file: a write parses and commits a whole configuration under the
    targets lock; a hook asks the OR mask and bisects the sorted uids. */
module KmodControl {
  import opened Options
  import opened Wire
  import opened TargetSet
  import opened ConfigWire
  import opened Policy

  const PAGE_SIZE: nat := 4096

  class Control {
    const uids: array<nat>
    const masks: array<HookSet>
    var nr: nat
    var dflt: HookSet
    var active: HookSet
    var debug: bool
    /** The configuration in force. */
    ghost var current: Config

    /** The arrays hold the current configuration; entries past `nr` are left over and
        mean nothing. */
    ghost predicate Stored()
      reads this, uids, masks
    {
      && uids.Length == masks.Length == MAX_TARGETS
      && Sorted(current.targets) && nr == |current.targets| <= MAX_TARGETS
      && (forall i :: 0 <= i < nr ==> uids[i] == current.targets[i].uid && masks[i] == Own(current.targets[i].mask))
      && dflt == Own(current.defaultMask) && active == ActiveMask(current)
    }

    ghost predicate Valid()
      reads this, uids, masks
    {
      Stored() && Installed(current)
    }

    constructor ()
      ensures Valid() && current == INITIAL && fresh(uids) && fresh(masks)
    {
      uids := new nat[MAX_TARGETS](_ => 0);
      masks := new HookSet[MAX_TARGETS](_ => {});
      nr, dflt, active, debug, current := 0, {}, {}, false, INITIAL;
      new;
      ZeroOwnsNothing();
    }

    /** ctl_write: an unacceptable text leaves everything as it was; an accepted one
        replaces the whole configuration, and the debug flag if it names one. */
    method Write(text: string) returns (ok: bool)
      requires Valid()
      modifies this, uids, masks
      ensures Valid()
      ensures ok <==> |text| <= PAGE_SIZE && Accepted(text, MAX_TARGETS)
      ensures ok ==> current.text == text && FromText(current)
      ensures ok ==> debug == (if Payload(text).debug == None then old(debug) else Payload(text).debug.value)
      ensures !ok ==> current == old(current) && debug == old(debug)
    {
      if |text| > PAGE_SIZE {
        return false;
      }
      var staged := new Target[MAX_TARGETS](_ => Target(0, 0));
      var r := ParseConfig(text, staged, MAX_TARGETS);
      if r == Rejected {
        return false;
      }
      ghost var c := Config(text, staged[..r.n], r.defaultMask);
      InstalledFits(c);
      Commit(staged, r.n, r.defaultMask, c);
      if r.debug != None {
        debug := r.debug.value;
      }
      ok := true;
    }

    /** The commit under the targets lock. */
    method Commit(staged: array<Target>, n: nat, defaultMask: nat, ghost c: Config)
      requires n <= staged.Length && n <= MAX_TARGETS && uids.Length == masks.Length == MAX_TARGETS
      requires c.targets == staged[..n] && c.defaultMask == defaultMask && Sorted(c.targets)
      modifies `nr, `dflt, `active, `current, uids, masks
      ensures Stored() && current == c
    {
      var mask := Own(defaultMask);
      var acc := mask;
      for i := 0 to n
        invariant forall j :: 0 <= j < i ==> uids[j] == c.targets[j].uid && masks[j] == Own(c.targets[j].mask)
        invariant acc == OrMasks(c.targets, i, mask)
      {
        assert staged[i] == c.targets[i];
        uids[i] := staged[i].uid;
        masks[i] := Own(staged[i].mask);
        acc := acc + masks[i];
      }
      nr, dflt, active := n, mask, acc;
      current := c;
    }

    /** target_mask: the caller's enabled hooks, by bisection. */
    method TargetMask(uid: nat) returns (mask: HookSet)
      requires Stored()
      ensures mask == if IsApp(uid) then ScanMask(current.targets, uid, Own(current.defaultMask)) else {}
    {
      if uid % PER_USER_RANGE < FIRST_APP_UID {
        return {};
      }
      mask := dflt;
      var lo, hi := 0, nr - 1;
      ghost var ts := current.targets;
      while lo <= hi
        invariant 0 <= lo <= nr && -1 <= hi < nr && lo <= hi + 1
        invariant forall j :: 0 <= j < lo ==> ts[j].uid < uid
        invariant forall j :: hi < j < nr ==> uid < ts[j].uid
      {
        var mid := lo + (hi - lo) / 2;
        if uids[mid] == uid {
          ScanFinds(ts, uid, dflt, mid);
          return masks[mid];
        }
        if uids[mid] < uid {
          lo := mid + 1;
        } else {
          hi := mid - 1;
        }
      }
      ScanMisses(ts, uid, dflt);
    }

    /** hook_active: gate plus bisection is the naive rule on the last accepted text,
        whatever was written before, accepted or not; a caller holding RAW is never hooked. */
    method HookActive(uid: nat, hook: nat, raw: bool) returns (fires: bool)
      requires Valid()
      ensures fires <==> !raw && NaiveRule(current != INITIAL, current.text, uid, hook)
    {
      DecideIsNaive(current, uid, hook);
      if hook !in active {
        GateIsSound(current, uid, hook);
        return false;
      }
      if raw {
        return false;
      }
      var mask := TargetMask(uid);
      return hook in mask;
    }
  }
}
