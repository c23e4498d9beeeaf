/** The KPM's size query: a bounded, no-fault walk over kernel memory it does not trust. The
    memory is an arbitrary graph of words; a length is authorised only by a complete, closed
    list of devices that accounts for every entry the kernel counted. */
module IfconfWalk {
  import opened Options
  import opened Bytes
  import Ifconf

  const MAX_OBJECTS: nat := 4096
  const IFNAMSIZ: nat := 16
  const IFREQ: nat := 40
  const WORD: int := 8

  /** Kernel memory: pointers, labels, and which addresses are the kernel's. */
  datatype Kernel = Kernel(ptr: int -> Option<int>, text: int -> Option<seq<byte>>, owns: int -> bool)

  /** One candidate layout of the structures walked. */
  datatype Layout = Layout(head: int, devList: int, ipPtr: int, inDevDev: int, ifaList: int, ifaDev: int, ifaName: int, ifaNext: int)

  function ReadPtr(k: Kernel, at: int): Option<int> { if k.owns(at) then k.ptr(at) else None }

  predicate Ends(name: seq<byte>) { |name| == IFNAMSIZ && exists i :: 0 <= i < |name| && name[i] == 0 }

  // ---------------------------------------------------------------------------
  // What the walk looks for
  // ---------------------------------------------------------------------------

  /** An address of inDev, with a terminated name and a readable link. */
  predicate AddressAt(k: Kernel, o: Layout, inDev: int, ifa: int, name: seq<byte>) {
    && ReadPtr(k, ifa + o.ifaDev) == Some(inDev) && k.text(ifa + o.ifaName) == Some(name) && Ends(name)
    && ReadPtr(k, ifa + o.ifaNext).Some?
  }

  /** Where the addresses named `names` lead from `ifa`. */
  function Follow(k: Kernel, o: Layout, inDev: int, ifa: int, names: seq<seq<byte>>): Option<int> {
    if names == [] then Some(ifa)
    else
      var last := |names| - 1;
      var m := Follow(k, o, inDev, ifa, names[..last]);
      if m.Some? && m.value != 0 && AddressAt(k, o, inDev, m.value, names[last]) then ReadPtr(k, m.value + o.ifaNext) else None
  }

  /** The link fields of a device node: it is the kernel's, and the next node points back. */
  predicate NodeAt(k: Kernel, node: int) {
    && k.owns(node) && ReadPtr(k, node).Some? && ReadPtr(k, ReadPtr(k, node).value + WORD) == Some(node)
  }

  /** The first address of an inet structure that points back to its device. */
  function FirstAddress(k: Kernel, o: Layout, dev: int, inDev: int): Option<int> {
    if ReadPtr(k, inDev + o.inDevDev) == Some(dev) then ReadPtr(k, inDev + o.ifaList) else None
  }

  /** A device node whose IPv4 addresses carry exactly these names. */
  predicate DeviceAt(k: Kernel, o: Layout, node: int, names: seq<seq<byte>>) {
    var inDev := ReadPtr(k, node - o.devList + o.ipPtr);
    NodeAt(k, node) && inDev.Some? && InetAt(k, o, node - o.devList, inDev.value, names)
  }

  predicate InetAt(k: Kernel, o: Layout, dev: int, inDev: int, names: seq<seq<byte>>) {
    if inDev == 0 then names == []
    else FirstAddress(k, o, dev, inDev).Some? && Follow(k, o, inDev, FirstAddress(k, o, dev, inDev).value, names) == Some(0)
  }

  /** Where the devices lead from `node` on the way to `head`. */
  function Walk(k: Kernel, o: Layout, head: int, node: int, devs: seq<seq<seq<byte>>>): Option<int> {
    if devs == [] then Some(node)
    else
      var last := |devs| - 1;
      var m := Walk(k, o, head, node, devs[..last]);
      if m.Some? && m.value != head && DeviceAt(k, o, m.value, devs[last]) then ReadPtr(k, m.value) else None
  }

  function Names(devs: seq<seq<seq<byte>>>): seq<seq<byte>> {
    if devs == [] then [] else Names(devs[..|devs| - 1]) + devs[|devs| - 1]
  }

  /** The namespace's devices form a closed list with these names, within the object bound. */
  predicate IsList(k: Kernel, o: Layout, net: int, devs: seq<seq<seq<byte>>>) {
    var first := ReadPtr(k, net + o.head);
    first.Some? && Walk(k, o, net + o.head, first.value, devs) == Some(net + o.head) && |devs| + |Names(devs)| <= MAX_OBJECTS
  }

  function HiddenNames(vpn: seq<byte> -> bool, names: seq<seq<byte>>): (n: nat)
    ensures n <= |names|
  {
    if names == [] then 0 else HiddenNames(vpn, names[..|names| - 1]) + if vpn(CString(names[|names| - 1])) then 1 else 0
  }

  lemma {:induction false} HiddenAppend(vpn: seq<byte> -> bool, a: seq<seq<byte>>, b: seq<seq<byte>>)
    ensures HiddenNames(vpn, a + b) == HiddenNames(vpn, a) + HiddenNames(vpn, b)
  {
    if b == [] {
      assert a + b == a;
    } else {
      assert (a + b)[..|a + b| - 1] == a + b[..|b| - 1];
      HiddenAppend(vpn, a, b[..|b| - 1]);
    }
  }

  lemma {:induction false} FollowPrefix(k: Kernel, o: Layout, inDev: int, ifa: int, names: seq<seq<byte>>, j: nat)
    requires Follow(k, o, inDev, ifa, names).Some? && j <= |names|
    ensures Follow(k, o, inDev, ifa, names[..j]).Some?
  {
    if j == |names| {
      assert names[..j] == names;
    } else {
      var last := |names| - 1;
      FollowPrefix(k, o, inDev, ifa, names[..last], j);
      assert names[..last][..j] == names[..j];
    }
  }

  /** A part of what was followed led to the address that bears the next name. */
  lemma NextName(k: Kernel, o: Layout, inDev: int, ifa: int, want: seq<seq<byte>>, done: seq<seq<byte>>)
    requires Follow(k, o, inDev, ifa, want).Some? && done <= want
    ensures |done| == |want| ==> done == want
    ensures |done| < |want| ==>
              var m := Follow(k, o, inDev, ifa, done);
              m.Some? && m.value != 0 && AddressAt(k, o, inDev, m.value, want[|done|])
  {
    var j := |done|;
    if j < |want| {
      FollowPrefix(k, o, inDev, ifa, want, j + 1);
      assert want[..j + 1][..j] == done && want[..j + 1][j] == want[j];
    }
  }

  lemma FollowOne(k: Kernel, o: Layout, inDev: int, ifa: int, done: seq<seq<byte>>, at: int, name: seq<byte>)
    requires Follow(k, o, inDev, ifa, done) == Some(at) && at != 0 && AddressAt(k, o, inDev, at, name)
    ensures Follow(k, o, inDev, ifa, done + [name]) == ReadPtr(k, at + o.ifaNext)
  {
    assert (done + [name])[..|done|] == done;
  }

  // ---------------------------------------------------------------------------
  // The inner loop
  // ---------------------------------------------------------------------------

  datatype Tally = Tally(objects: nat, count: nat, hidden: nat)

  ghost predicate Tallied(t0: Tally, t: Tally, objects: nat, names: seq<seq<byte>>, vpn: seq<byte> -> bool) {
    t == Tally(t0.objects + objects + |names|, t0.count + |names|, t0.hidden + HiddenNames(vpn, names))
  }

  lemma TallyOne(t0: Tally, t: Tally, names: seq<seq<byte>>, name: seq<byte>, vpn: seq<byte> -> bool)
    requires Tallied(t0, t, 0, names, vpn)
    ensures Tallied(t0, Tally(t.objects + 1, t.count + 1, t.hidden + if vpn(CString(name)) then 1 else 0), 0, names + [name], vpn)
  {
    assert (names + [name])[..|names|] == names;
  }

  method FindNul(name: seq<byte>) returns (found: bool)
    ensures found <==> exists i :: 0 <= i < |name| && name[i] == 0
  {
    for i := 0 to |name|
      invariant forall j :: 0 <= j < i ==> name[j] != 0
    {
      if name[i] == 0 {
        return true;
      }
    }
    return false;
  }

  /** One address: its name and its link, if everything about it checks out. */
  method ReadAddress(k: Kernel, o: Layout, inDev: int, ifa: int) returns (name: Option<seq<byte>>, next: int)
    ensures name.Some? <==> exists n :: AddressAt(k, o, inDev, ifa, n)
    ensures name.Some? ==> AddressAt(k, o, inDev, ifa, name.value) && ReadPtr(k, ifa + o.ifaNext) == Some(next)
  {
    name, next := None, 0;
    var owner := ReadPtr(k, ifa + o.ifaDev);
    var text := k.text(ifa + o.ifaName);
    if owner != Some(inDev) || text.None? || |text.value| != IFNAMSIZ {
      return;
    }
    var link := ReadPtr(k, ifa + o.ifaNext);
    if link.None? {
      return;
    }
    var found := FindNul(text.value);
    if found {
      name, next := text, link.value;
      assert AddressAt(k, o, inDev, ifa, text.value);
    }
  }

  /** A device's addresses. It stops within the object bound whatever the links say; what it
      accepts ends in a null link, and it accepts `want` if that is what is there. */
  method WalkAddresses(k: Kernel, o: Layout, inDev: int, first: int, t0: Tally, expected: nat, vpn: seq<byte> -> bool, ghost want: seq<seq<byte>>)
    returns (ok: bool, t: Tally, ghost names: seq<seq<byte>>)
    requires t0.objects <= MAX_OBJECTS && t0.count <= expected
    ensures ok ==> Follow(k, o, inDev, first, names) == Some(0) && Tallied(t0, t, 0, names, vpn) && t.objects <= MAX_OBJECTS && t.count <= expected
    ensures Follow(k, o, inDev, first, want) == Some(0) && t0.objects + |want| <= MAX_OBJECTS && t0.count + |want| <= expected ==> ok && names == want
  {
    t, names := t0, [];
    var ifa := first;
    ghost var wanted := Follow(k, o, inDev, first, want) == Some(0);
    while ifa != 0
      invariant t.objects <= MAX_OBJECTS && t.count <= expected && Tallied(t0, t, 0, names, vpn)
      invariant Follow(k, o, inDev, first, names) == Some(ifa) && (wanted ==> names <= want)
      decreases MAX_OBJECTS - t.objects
    {
      var name, next := ReadAddress(k, o, inDev, ifa);
      if wanted {
        WantedNext(k, o, inDev, first, want, names, ifa);
        assert name == Some(want[|names|]);
      }
      if t.objects + 1 > MAX_OBJECTS || name.None? || t.count + 1 > expected {
        return false, t, names;
      }
      FollowOne(k, o, inDev, first, names, ifa, name.value);
      TallyOne(t0, t, names, name.value, vpn);
      t := Tally(t.objects + 1, t.count + 1, t.hidden + if vpn(CString(name.value)) then 1 else 0);
      names, ifa := names + [name.value], next;
    }
    ok := true;
    if wanted {
      NextName(k, o, inDev, first, want, names);
    }
  }

  /** On the way along `want`, the address at hand is the next one. */
  lemma WantedNext(k: Kernel, o: Layout, inDev: int, first: int, want: seq<seq<byte>>, names: seq<seq<byte>>, ifa: int)
    requires Follow(k, o, inDev, first, want) == Some(0) && names <= want && Follow(k, o, inDev, first, names) == Some(ifa) && ifa != 0
    ensures |names| < |want| && AddressAt(k, o, inDev, ifa, want[|names|]) && names + [want[|names|]] <= want
  {
    NextName(k, o, inDev, first, want, names);
    assert |names| < |want|;
    PrefixNext(names, want);
  }

  lemma PrefixNext(s: seq<seq<byte>>, t: seq<seq<byte>>)
    requires s <= t && |s| < |t|
    ensures s + [t[|s|]] <= t
  {
    assert t[..|s| + 1] == s + [t[|s|]];
  }

  // ---------------------------------------------------------------------------
  // The outer loop
  // ---------------------------------------------------------------------------

  lemma {:induction false} WalkPrefix(k: Kernel, o: Layout, head: int, node: int, devs: seq<seq<seq<byte>>>, j: nat)
    requires Walk(k, o, head, node, devs).Some? && j <= |devs|
    ensures Walk(k, o, head, node, devs[..j]).Some?
  {
    if j == |devs| {
      assert devs[..j] == devs;
    } else {
      var last := |devs| - 1;
      WalkPrefix(k, o, head, node, devs[..last], j);
      assert devs[..last][..j] == devs[..j];
    }
  }

  lemma NextDevice(k: Kernel, o: Layout, head: int, node: int, want: seq<seq<seq<byte>>>, done: seq<seq<seq<byte>>>)
    requires Walk(k, o, head, node, want).Some? && done <= want
    ensures |done| == |want| ==> done == want
    ensures |done| < |want| ==>
              var m := Walk(k, o, head, node, done);
              m.Some? && m.value != head && DeviceAt(k, o, m.value, want[|done|])
  {
    var j := |done|;
    if j < |want| {
      WalkPrefix(k, o, head, node, want, j + 1);
      assert want[..j + 1][..j] == done && want[..j + 1][j] == want[j];
    }
  }

  lemma WalkOne(k: Kernel, o: Layout, head: int, node: int, done: seq<seq<seq<byte>>>, at: int, names: seq<seq<byte>>)
    requires Walk(k, o, head, node, done) == Some(at) && at != head && DeviceAt(k, o, at, names)
    ensures Walk(k, o, head, node, done + [names]) == ReadPtr(k, at) && Names(done + [names]) == Names(done) + names
  {
    assert (done + [names])[..|done|] == done;
  }

  /** A part of the devices has no more names than all of them. */
  lemma {:induction false} NamesOfPrefix(devs: seq<seq<seq<byte>>>, j: nat)
    requires j <= |devs|
    ensures |Names(devs[..j])| <= |Names(devs)|
  {
    if j == |devs| {
      assert devs[..j] == devs;
    } else {
      NamesOfPrefix(devs[..|devs| - 1], j);
      assert devs[..|devs| - 1][..j] == devs[..j];
    }
  }

  /** What the walk of `want` needs for one more device. */
  lemma RoomForNext(want: seq<seq<seq<byte>>>, done: seq<seq<seq<byte>>>)
    requires done <= want && |done| < |want|
    ensures |Names(done)| + |want[|done|]| <= |Names(want)| && done + [want[|done|]] <= want
  {
    var j := |done|;
    NamesOfPrefix(want, j + 1);
    assert want[..j + 1][..j] == done && want[..j + 1] == done + [want[j]];
  }

  /** The link checks of a node, and its inet structure. */
  method ReadNode(k: Kernel, o: Layout, node: int) returns (inDev: Option<int>, next: int)
    ensures inDev.Some? <==> NodeAt(k, node) && ReadPtr(k, node - o.devList + o.ipPtr).Some?
    ensures inDev.Some? ==> ReadPtr(k, node) == Some(next) && inDev == ReadPtr(k, node - o.devList + o.ipPtr)
  {
    inDev, next := None, 0;
    if !k.owns(node) {
      return;
    }
    var link := ReadPtr(k, node);
    if link.None? {
      return;
    }
    next := link.value;
    var prev := ReadPtr(k, next + WORD);
    if prev != Some(node) {
      return;
    }
    inDev := ReadPtr(k, node - o.devList + o.ipPtr);
  }

  /** A device's inet structure. */
  method WalkInet(k: Kernel, o: Layout, dev: int, inDev: int, t0: Tally, expected: nat, vpn: seq<byte> -> bool, ghost want: seq<seq<byte>>)
    returns (ok: bool, t: Tally, ghost names: seq<seq<byte>>)
    requires t0.objects <= MAX_OBJECTS && t0.count <= expected
    ensures ok ==> InetAt(k, o, dev, inDev, names) && Tallied(t0, t, 0, names, vpn) && t.objects <= MAX_OBJECTS && t.count <= expected
    ensures InetAt(k, o, dev, inDev, want) && t0.objects + |want| <= MAX_OBJECTS && t0.count + |want| <= expected ==> ok && names == want
  {
    if inDev == 0 {
      return true, t0, [];
    }
    var owner := ReadPtr(k, inDev + o.inDevDev);
    var ifa := ReadPtr(k, inDev + o.ifaList);
    if owner != Some(dev) || ifa.None? {
      return false, t0, [];
    }
    ok, t, names := WalkAddresses(k, o, inDev, ifa.value, t0, expected, vpn, want);
  }

  /** One device. */
  method WalkDevice(k: Kernel, o: Layout, node: int, t0: Tally, expected: nat, vpn: seq<byte> -> bool, ghost want: seq<seq<byte>>)
    returns (ok: bool, t: Tally, next: int, ghost names: seq<seq<byte>>)
    requires t0.objects <= MAX_OBJECTS && t0.count <= expected
    ensures ok ==> DeviceAt(k, o, node, names) && ReadPtr(k, node) == Some(next) && Tallied(t0, t, 1, names, vpn) && t.objects <= MAX_OBJECTS && t.count <= expected
    ensures DeviceAt(k, o, node, want) && t0.objects + 1 + |want| <= MAX_OBJECTS && t0.count + |want| <= expected ==> ok && names == want
  {
    ok, t, names := false, t0.(objects := t0.objects + 1), [];
    var inDev;
    inDev, next := ReadNode(k, o, node);
    if t.objects > MAX_OBJECTS || inDev.None? {
      return;
    }
    ok, t, names := WalkInet(k, o, node - o.devList, inDev.value, t, expected, vpn, want);
  }

  /** The list walk: it accepts `want` if that is what memory holds. */
  method WalkList(k: Kernel, o: Layout, net: int, expected: nat, vpn: seq<byte> -> bool, ghost want: seq<seq<seq<byte>>>)
    returns (ok: bool, hidden: nat, ghost devs: seq<seq<seq<byte>>>)
    ensures ok ==> IsList(k, o, net, devs) && |Names(devs)| == expected && hidden == HiddenNames(vpn, Names(devs))
    ensures IsList(k, o, net, want) && |Names(want)| == expected ==> ok && devs == want
  {
    ok, hidden, devs := false, 0, [];
    var head := net + o.head;
    var first := ReadPtr(k, head);
    if first.None? {
      return;
    }
    var node, t := first.value, Tally(0, 0, 0);
    ghost var wanted := IsList(k, o, net, want) && |Names(want)| == expected;
    while node != head
      invariant t.objects <= MAX_OBJECTS && t.count <= expected && Tallied(Tally(0, 0, 0), t, |devs|, Names(devs), vpn)
      invariant Walk(k, o, head, first.value, devs) == Some(node) && (wanted ==> devs <= want)
      decreases MAX_OBJECTS - t.objects
    {
      ghost var wantNext := [];
      if wanted {
        NextDevice(k, o, head, first.value, want, devs);
        wantNext := want[|devs|];
        RoomForNext(want, devs);
      }
      var good, t', next;
      ghost var names;
      good, t', next, names := WalkDevice(k, o, node, t, expected, vpn, wantNext);
      if !good {
        return;
      }
      WalkOne(k, o, head, first.value, devs, node, names);
      HiddenAppend(vpn, Names(devs), names);
      devs, t, node := devs + [names], t', next;
    }
    if wanted {
      NextDevice(k, o, head, first.value, want, devs);
    }
    return t.count == expected, t.hidden, devs;
  }

  // ---------------------------------------------------------------------------
  // ifconf_project_length
  // ---------------------------------------------------------------------------

  /** A layout under which memory accounts for every address the kernel counted. */
  ghost predicate Verified(k: Kernel, o: Layout, net: int, expected: nat) {
    exists devs :: IsList(k, o, net, devs) && |Names(devs)| == expected
  }

  ghost function Count(p: Layout -> bool, layouts: seq<Layout>): nat {
    if layouts == [] then 0 else Count(p, layouts[..|layouts| - 1]) + if p(layouts[|layouts| - 1]) then 1 else 0
  }

  ghost function Verifies(k: Kernel, net: int, expected: nat): Layout -> bool { o => Verified(k, o, net, expected) }

  /** How many layouts are verified. */
  ghost function Matches(k: Kernel, layouts: seq<Layout>, net: int, expected: nat): nat { Count(Verifies(k, net, expected), layouts) }

  /** Some layout verifies a list with this many hidden names. */
  ghost predicate Explains(k: Kernel, layouts: seq<Layout>, net: int, expected: nat, vpn: seq<byte> -> bool, hidden: nat) {
    exists i, devs :: 0 <= i < |layouts| && IsList(k, layouts[i], net, devs) && |Names(devs)| == expected && hidden == HiddenNames(vpn, Names(devs))
  }

  /** ifconf_walk: it ends on every memory graph, cyclic ones included; it accepts exactly when
      memory holds a closed list within the bound that accounts for `expected` addresses, and
      counts the hidden ones of that list. */
  method WalkNamespace(k: Kernel, o: Layout, net: int, expected: nat, vpn: seq<byte> -> bool) returns (ok: bool, hidden: nat)
    ensures ok <==> Verified(k, o, net, expected)
    ensures ok ==> forall devs :: IsList(k, o, net, devs) && |Names(devs)| == expected ==> hidden == HiddenNames(vpn, Names(devs))
  {
    ghost var want := [];
    if Verified(k, o, net, expected) {
      want :| IsList(k, o, net, want) && |Names(want)| == expected;
    }
    ghost var devs;
    ok, hidden, devs := WalkList(k, o, net, expected, vpn, want);
    if ok {
      forall other | IsList(k, o, net, other)
        ensures other == devs
      {
        OneList(k, o, net, other, devs);
      }
    }
  }

  /** The size query's projection: `net` is what the socket led to, if anything. A new length
      is authorised exactly when one layout alone is verified and it hides something; it is
      then the length without the hidden entries, shorter and never negative. */
  method ProjectLength(k: Kernel, layouts: seq<Layout>, net: Option<int>, original: int, vpn: seq<byte> -> bool) returns (projected: Option<nat>)
    ensures projected.Some? <==>
            && original > 0 && original % 40 == 0 && net.Some? && Matches(k, layouts, net.value, original / 40) == 1
            && !Explains(k, layouts, net.value, original / 40, vpn, 0)
    ensures projected.Some? ==> 0 <= projected.value < original
    ensures projected.Some? ==> forall hidden: nat :: Explains(k, layouts, net.value, original / 40, vpn, hidden) ==> projected.value == original - hidden * 40
  {
    if original <= 0 || original % IFREQ != 0 || net.None? {
      return None;
    }
    var expected: nat := original / IFREQ;
    var matched, hidden := CountMatches(k, layouts, net.value, expected, vpn);
    if matched == 1 {
      forall other: nat | Explains(k, layouts, net.value, expected, vpn, other)
        ensures other == hidden
      {
        OneExplanation(k, layouts, net.value, expected, vpn, other, hidden);
      }
    }
    if matched != 1 || hidden == 0 {
      return None;
    }
    HiddenBound(k, layouts, net.value, expected, vpn, hidden);
    projected := Some(original - hidden * IFREQ);
  }

  lemma {:induction false} CountTwo(p: Layout -> bool, layouts: seq<Layout>, i: nat, j: nat)
    requires i < j < |layouts| && p(layouts[i]) && p(layouts[j])
    ensures Count(p, layouts) >= 2
  {
    var last := |layouts| - 1;
    if j < last {
      CountTwo(p, layouts[..last], i, j);
    } else {
      CountOne(p, layouts[..last], i);
    }
  }

  lemma {:induction false} CountOne(p: Layout -> bool, layouts: seq<Layout>, i: nat)
    requires i < |layouts| && p(layouts[i])
    ensures Count(p, layouts) >= 1
  {
    var last := |layouts| - 1;
    if i < last {
      CountOne(p, layouts[..last], i);
    }
  }

  /** With one verified layout there is one hidden count. */
  lemma OneExplanation(k: Kernel, layouts: seq<Layout>, net: int, expected: nat, vpn: seq<byte> -> bool, a: nat, b: nat)
    requires Matches(k, layouts, net, expected) == 1
    requires Explains(k, layouts, net, expected, vpn, a) && Explains(k, layouts, net, expected, vpn, b)
    ensures a == b
  {
    var i, d :| 0 <= i < |layouts| && IsList(k, layouts[i], net, d) && |Names(d)| == expected && a == HiddenNames(vpn, Names(d));
    var j, e :| 0 <= j < |layouts| && IsList(k, layouts[j], net, e) && |Names(e)| == expected && b == HiddenNames(vpn, Names(e));
    assert Verified(k, layouts[i], net, expected) && Verified(k, layouts[j], net, expected);
    if i < j {
      CountTwo(Verifies(k, net, expected), layouts, i, j);
    } else if j < i {
      CountTwo(Verifies(k, net, expected), layouts, j, i);
    } else {
      OneList(k, layouts[i], net, d, e);
    }
  }

  lemma HiddenBound(k: Kernel, layouts: seq<Layout>, net: int, expected: nat, vpn: seq<byte> -> bool, hidden: nat)
    requires Explains(k, layouts, net, expected, vpn, hidden)
    ensures hidden <= expected
  {
  }

  lemma MatchStep(k: Kernel, layouts: seq<Layout>, net: int, expected: nat, i: nat)
    requires i < |layouts|
    ensures Matches(k, layouts[..i + 1], net, expected) == Matches(k, layouts[..i], net, expected) + if Verified(k, layouts[i], net, expected) then 1 else 0
  {
    assert layouts[..i + 1][..i] == layouts[..i];
  }

  lemma Explained(k: Kernel, layouts: seq<Layout>, net: int, expected: nat, vpn: seq<byte> -> bool, i: nat, hidden: nat)
    requires i < |layouts| && Verified(k, layouts[i], net, expected)
    requires forall devs :: IsList(k, layouts[i], net, devs) && |Names(devs)| == expected ==> hidden == HiddenNames(vpn, Names(devs))
    ensures Explains(k, layouts, net, expected, vpn, hidden)
  {
  }

  method CountMatches(k: Kernel, layouts: seq<Layout>, net: int, expected: nat, vpn: seq<byte> -> bool) returns (matched: nat, hidden: nat)
    ensures matched == Matches(k, layouts, net, expected) && (matched > 0 ==> Explains(k, layouts, net, expected, vpn, hidden))
  {
    matched, hidden := 0, 0;
    for i := 0 to |layouts|
      invariant matched == Matches(k, layouts[..i], net, expected)
      invariant matched > 0 ==> Explains(k, layouts, net, expected, vpn, hidden)
    {
      MatchStep(k, layouts, net, expected, i);
      var ok, candidate := WalkNamespace(k, layouts[i], net, expected, vpn);
      if ok {
        Explained(k, layouts, net, expected, vpn, i, candidate);
        matched, hidden := matched + 1, candidate;
      }
    }
    assert layouts[..|layouts|] == layouts;
  }

  // ---------------------------------------------------------------------------
  // One answer
  // ---------------------------------------------------------------------------

  lemma NextAgrees(k: Kernel, o: Layout, inDev: int, ifa: int, a: seq<seq<byte>>, b: seq<seq<byte>>, done: seq<seq<byte>>)
    requires Follow(k, o, inDev, ifa, a).Some? && Follow(k, o, inDev, ifa, b).Some? && done <= a && done <= b && |done| < |a| && |done| < |b|
    ensures a[|done|] == b[|done|]
  {
    NextName(k, o, inDev, ifa, a, done);
    NextName(k, o, inDev, ifa, b, done);
  }

  lemma {:induction false} CommonNames(k: Kernel, o: Layout, inDev: int, ifa: int, a: seq<seq<byte>>, b: seq<seq<byte>>, j: nat)
    requires Follow(k, o, inDev, ifa, a).Some? && Follow(k, o, inDev, ifa, b).Some? && j <= |a| && j <= |b|
    ensures a[..j] == b[..j]
  {
    if j > 0 {
      CommonNames(k, o, inDev, ifa, a, b, j - 1);
      NextAgrees(k, o, inDev, ifa, a, b, a[..j - 1]);
      assert a[..j] == a[..j - 1] + [a[j - 1]] && b[..j] == b[..j - 1] + [b[j - 1]];
    }
  }

  lemma SameNames(k: Kernel, o: Layout, inDev: int, ifa: int, a: seq<seq<byte>>, b: seq<seq<byte>>)
    requires Follow(k, o, inDev, ifa, a) == Some(0) == Follow(k, o, inDev, ifa, b)
    ensures a == b
  {
    var j := if |a| < |b| then |a| else |b|;
    CommonNames(k, o, inDev, ifa, a, b, j);
    assert a[..|a|] == a && b[..|b|] == b;
    NextName(k, o, inDev, ifa, a, a[..j]);
    NextName(k, o, inDev, ifa, b, b[..j]);
  }

  lemma SameDevice(k: Kernel, o: Layout, node: int, a: seq<seq<byte>>, b: seq<seq<byte>>)
    requires DeviceAt(k, o, node, a) && DeviceAt(k, o, node, b)
    ensures a == b
  {
    var dev := node - o.devList;
    var inDev := ReadPtr(k, dev + o.ipPtr).value;
    if inDev != 0 {
      SameNames(k, o, inDev, FirstAddress(k, o, dev, inDev).value, a, b);
    }
  }

  lemma SameNext(k: Kernel, o: Layout, head: int, node: int, a: seq<seq<seq<byte>>>, b: seq<seq<seq<byte>>>, done: seq<seq<seq<byte>>>)
    requires Walk(k, o, head, node, a).Some? && Walk(k, o, head, node, b).Some? && done <= a && done <= b && |done| < |a| && |done| < |b|
    ensures a[|done|] == b[|done|]
  {
    NextDevice(k, o, head, node, a, done);
    NextDevice(k, o, head, node, b, done);
    SameDevice(k, o, Walk(k, o, head, node, done).value, a[|done|], b[|done|]);
  }

  lemma {:induction false} CommonDevices(k: Kernel, o: Layout, head: int, node: int, a: seq<seq<seq<byte>>>, b: seq<seq<seq<byte>>>, j: nat)
    requires Walk(k, o, head, node, a).Some? && Walk(k, o, head, node, b).Some? && j <= |a| && j <= |b|
    ensures a[..j] == b[..j]
  {
    if j > 0 {
      CommonDevices(k, o, head, node, a, b, j - 1);
      SameNext(k, o, head, node, a, b, a[..j - 1]);
      assert a[..j] == a[..j - 1] + [a[j - 1]] && b[..j] == b[..j - 1] + [b[j - 1]];
    }
  }

  /** Memory holds at most one closed list under a layout, so a verified count is the count. */
  lemma OneList(k: Kernel, o: Layout, net: int, a: seq<seq<seq<byte>>>, b: seq<seq<seq<byte>>>)
    requires IsList(k, o, net, a) && IsList(k, o, net, b)
    ensures a == b
  {
    var head := net + o.head;
    var first := ReadPtr(k, head).value;
    var j := if |a| < |b| then |a| else |b|;
    CommonDevices(k, o, head, first, a, b, j);
    assert a[..|a|] == a && b[..|b|] == b;
    NextDevice(k, o, head, first, a, a[..j]);
    NextDevice(k, o, head, first, b, b[..j]);
  }

  /** Terminating a name that already ends changes nothing a C string shows. */
  lemma EndsAlready(name: seq<byte>)
    requires Ends(name)
    ensures CString(Ifconf.Terminated(name)) == CString(name)
  {
    var t := Ifconf.Terminated(name);
    var n := Before(name, Nul);
    assert n < IFNAMSIZ;
    assert Nul(t[n]) && forall i :: 0 <= i < n ==> t[i] == name[i] && !Nul(t[i]);
    assert Before(t, Nul) == n;
    assert t[..n] == name[..n];
  }

  /** The two backends hide the same number of a fill's entries, so they project the same
      length. */
  lemma {:induction false} BackendsAgree(vpn: seq<byte> -> bool, entries: seq<Ifconf.Entry>, names: seq<seq<byte>>)
    requires |entries| == |names| && forall i :: 0 <= i < |names| ==> entries[i].name == names[i] && Ends(names[i])
    ensures Ifconf.HiddenIn(Ifconf.Hides(vpn), entries) == HiddenNames(vpn, names)
  {
    if names != [] {
      var last := |names| - 1;
      BackendsAgree(vpn, entries[..last], names[..last]);
      EndsAlready(names[last]);
      assert entries == entries[..last] + [entries[last]];
      Ifconf.VisibleAppend(Ifconf.Hides(vpn), entries[..last], [entries[last]]);
      assert [entries[last]][1..] == [];
    }
  }
}
