/** What a configuration decides: the naive rule read off the text, and the bisection over
    the sorted arrays behind the OR-mask gate that must agree with it. */
module Policy {
  import opened Wire
  import opened TargetSet
  import opened ConfigWire

  const MAX_TARGETS: nat := 160
  const FIRST_APP_UID: nat := 10_000
  const PER_USER_RANGE: nat := 100_000

  /** A 32-bit hook mask, as the set of hook ids whose bit is set. */
  type HookSet = set<nat>

  function Pow2(k: nat): (p: nat)
    ensures p >= 1
  {
    if k == 0 then 1 else 2 * Pow2(k - 1)
  }

  /** The hook ids of a mask number; bits from 32 up are cut off as the 32-bit field does. */
  function Hooks(mask: nat): HookSet { set k | 0 <= k < 32 && mask / Pow2(k) % 2 == 1 }

  /** Hooks this backend owns: the kernel hooks (0x20003ff) and the filesystem hook (bit 27). */
  const OWNED: HookSet := {0, 1, 2, 3, 4, 5, 6, 7, 8, 9, 25, 27}

  /** A parsed mask as stored. */
  function Own(mask: nat): HookSet { Hooks(mask) * OWNED }

  lemma DivTwice(a: nat, b: nat)
    requires b > 0
    ensures a / (2 * b) == a / 2 / b
  {
    var q, r := a / 2 / b, a / 2 % b;
    assert a == 2 * (q * b + r) + a % 2;
    assert a == q * (2 * b) + (2 * r + a % 2) && 2 * r + a % 2 < 2 * b;
    Quotient(a, 2 * b, q, 2 * r + a % 2);
  }

  lemma Multiples(e: int, d: nat)
    ensures e >= 1 ==> e * d >= d
    ensures e <= -1 ==> e * d + d <= 0
  {
  }

  lemma Quotient(a: nat, d: nat, q: nat, r: nat)
    requires r < d && a == q * d + r
    ensures a / d == q
  {
    var e := a / d - q;
    assert a == (a / d) * d + a % d;
    assert e * d == r - a % d;
    Multiples(e, d);
  }

  /** The lowest bit is hook 0. */
  lemma LowestHook(mask: nat)
    ensures 0 in Hooks(mask) <==> mask % 2 == 1
  {
  }

  /** The bit of each hook is twice that of the one before, and there are 32. */
  lemma NextHook(mask: nat, k: nat)
    ensures k < 31 ==> (k + 1 in Hooks(mask) <==> k in Hooks(mask / 2))
    ensures k >= 32 ==> k !in Hooks(mask)
  {
    DivTwice(mask, Pow2(k));
  }

  /** Of a stored mask exactly hooks 0 to 9, 25 and 27 are left. */
  lemma OwnedHooks(mask: nat, k: nat)
    ensures k in Own(mask) <==> k in Hooks(mask) && (k <= 9 || k == 25 || k == 27)
  {
  }

  /** A configuration in force: the text it came from, its targets ascending, its default. */
  datatype Config = Config(text: string, targets: seq<Target>, defaultMask: nat)

  const INITIAL := Config("", [], 0)

  /** The configuration a text stands for. */
  ghost predicate FromText(c: Config) {
    && Accepted(c.text, MAX_TARGETS)
    && Sorted(c.targets) && Represents(c.targets, MapOf(Payload(c.text).records))
    && c.defaultMask == Payload(c.text).defaultMask
  }

  ghost predicate Installed(c: Config) {
    c == INITIAL || FromText(c)
  }

  lemma InstalledFits(c: Config)
    requires Installed(c)
    ensures Sorted(c.targets) && |c.targets| <= MAX_TARGETS
  {
    if FromText(c) {
      SortedListSize(c.targets, MapOf(Payload(c.text).records));
    }
  }

  predicate IsApp(uid: nat) { uid % PER_USER_RANGE >= FIRST_APP_UID }

  /** The mask a list gives a uid, by scanning. */
  function ScanMask(targets: seq<Target>, uid: nat, default_: HookSet): HookSet {
    if targets == [] then default_
    else if targets[0].uid == uid then Own(targets[0].mask)
    else ScanMask(targets[1..], uid, default_)
  }

  /** Does hook fire for this uid? */
  predicate Decide(c: Config, uid: nat, hook: nat) {
    IsApp(uid) && hook in ScanMask(c.targets, uid, Own(c.defaultMask))
  }

  /** The same straight from the text: never below the app range; else the last record
      naming the uid, else the default, restricted to owned hooks. Before any accepted text
      nothing fires. */
  function NaiveMask(text: string, uid: nat): nat {
    var r := Payload(text);
    if uid in MapOf(r.records) then MapOf(r.records)[uid] else r.defaultMask
  }

  predicate NaiveRule(installed: bool, text: string, uid: nat, hook: nat) {
    installed && IsApp(uid) && hook in Own(NaiveMask(text, uid))
  }

  lemma {:induction false} ScanIsOwned(targets: seq<Target>, uid: nat, default_: nat, hook: nat)
    requires hook in ScanMask(targets, uid, Own(default_))
    ensures hook <= 9 || hook == 25 || hook == 27
  {
    if targets != [] && targets[0].uid != uid {
      ScanIsOwned(targets[1..], uid, default_, hook);
    }
  }

  /** Whatever is configured, no other hook ever fires, and none below the app range. */
  lemma OnlyOwnedFire(c: Config, uid: nat, hook: nat)
    requires Decide(c, uid, hook)
    ensures uid % 100_000 >= 10_000 && (hook <= 9 || hook == 25 || hook == 27)
  {
    ScanIsOwned(c.targets, uid, c.defaultMask, hook);
  }

  lemma {:induction false} ScanFinds(targets: seq<Target>, uid: nat, default_: HookSet, i: nat)
    requires Sorted(targets) && i < |targets| && targets[i].uid == uid
    ensures ScanMask(targets, uid, default_) == Own(targets[i].mask)
  {
    if i > 0 {
      ScanFinds(targets[1..], uid, default_, i - 1);
    }
  }

  lemma {:induction false} ScanMisses(targets: seq<Target>, uid: nat, default_: HookSet)
    requires forall i :: 0 <= i < |targets| ==> targets[i].uid != uid
    ensures ScanMask(targets, uid, default_) == default_
  {
    if targets != [] {
      ScanMisses(targets[1..], uid, default_);
    }
  }

  /** From text to decision: the installed lists decide as the naive rule does. */
  lemma DecideIsNaive(c: Config, uid: nat, hook: nat)
    requires Installed(c)
    ensures Decide(c, uid, hook) <==> NaiveRule(c != INITIAL, c.text, uid, hook)
  {
    if FromText(c) {
      var m := MapOf(Payload(c.text).records);
      if uid in m {
        var i :| 0 <= i < |c.targets| && c.targets[i].uid == uid;
        ScanFinds(c.targets, uid, Own(c.defaultMask), i);
      } else {
        forall i | 0 <= i < |c.targets|
          ensures c.targets[i].uid != uid
        {
          assert c.targets[i].uid in m;
        }
        ScanMisses(c.targets, uid, Own(c.defaultMask));
      }
      InitialIsNoText(c);
    } else {
      ZeroOwnsNothing();
    }
  }

  lemma ZeroOwnsNothing()
    ensures Own(0) == {}
  {
    assert forall k :: k in Hooks(0) ==> 0 / Pow2(k) % 2 == 1;
  }

  lemma InitialIsNoText(c: Config)
    requires FromText(c)
    ensures c != INITIAL
  {
    assert Lines("") == [];
  }

  // ---------------------------------------------------------------------------
  // The OR-mask gate
  // ---------------------------------------------------------------------------

  /** OR of the first n stored masks and the default. */
  function OrMasks(targets: seq<Target>, n: nat, default_: HookSet): HookSet
    requires n <= |targets|
  {
    if n == 0 then default_ else OrMasks(targets, n - 1, default_) + Own(targets[n - 1].mask)
  }

  function ActiveMask(c: Config): HookSet { OrMasks(c.targets, |c.targets|, Own(c.defaultMask)) }

  lemma {:induction false} GateCovers(targets: seq<Target>, n: nat, default_: HookSet)
    requires n <= |targets|
    ensures default_ <= OrMasks(targets, n, default_)
    ensures forall i :: 0 <= i < n ==> Own(targets[i].mask) <= OrMasks(targets, n, default_)
  {
    if n > 0 {
      GateCovers(targets, n - 1, default_);
    }
  }

  /** A hook outside the OR mask fires for nobody. */
  lemma GateIsSound(c: Config, uid: nat, hook: nat)
    requires Sorted(c.targets) && hook !in ActiveMask(c)
    ensures !Decide(c, uid, hook)
  {
    GateCovers(c.targets, |c.targets|, Own(c.defaultMask));
    if i :| 0 <= i < |c.targets| && c.targets[i].uid == uid {
      ScanFinds(c.targets, uid, Own(c.defaultMask), i);
    } else {
      ScanMisses(c.targets, uid, Own(c.defaultMask));
    }
  }
}
