/** The list the size query walks, said word by word: which words of kernel memory hold which
    pointers. What the walk accepts is exactly such a ring of devices, every one of them with
    its chain of addresses. */
module IfconfMemory {
  import opened Options
  import opened Bytes
  import opened IfconfWalk

  /** The word at `at` is readable and holds v. */
  predicate Word(k: Kernel, at: int, v: int) { k.owns(at) && k.ptr(at) == Some(v) }

  /** A device's inet structure, 0 if it has none, its addresses with the null after them, and
      their names. */
  datatype Dev = Dev(inDev: int, links: seq<int>, names: seq<seq<byte>>)

  /** An address: owner, 16-byte terminated name, link. */
  predicate AddressIn(k: Kernel, o: Layout, inDev: int, ifa: int, name: seq<byte>, next: int) {
    && ifa != 0 && Word(k, ifa + o.ifaDev, inDev) && Word(k, ifa + o.ifaNext, next)
    && k.text(ifa + o.ifaName) == Some(name) && |name| == 16 && 0 in name
  }

  predicate Linked(k: Kernel, o: Layout, inDev: int, links: seq<int>, names: seq<seq<byte>>, j: nat)
    requires j < |names| < |links|
  {
    AddressIn(k, o, inDev, links[j], names[j], links[j + 1])
  }

  ghost predicate Chain(k: Kernel, o: Layout, inDev: int, links: seq<int>, names: seq<seq<byte>>) {
    |links| == |names| + 1 && forall j: nat :: j < |names| ==> Linked(k, o, inDev, links, names, j)
  }

  /** A device node: linked forward and back; its inet structure points back to it and to the
      first address, and the chain of addresses ends in null. */
  ghost predicate DeviceIn(k: Kernel, o: Layout, node: int, next: int, d: Dev) {
    && k.owns(node) && Word(k, node, next) && Word(k, next + 8, node) && Word(k, node - o.devList + o.ipPtr, d.inDev)
    && if d.inDev == 0 then d.names == []
       else
         && Chain(k, o, d.inDev, d.links, d.names) && d.links[|d.names|] == 0
         && Word(k, d.inDev + o.inDevDev, node - o.devList) && Word(k, d.inDev + o.ifaList, d.links[0])
  }

  /** The nodes from the head around to the head. */
  ghost predicate Ring(k: Kernel, o: Layout, head: int, nodes: seq<int>, ds: seq<Dev>) {
    |nodes| == |ds| + 1 && forall i: nat :: i < |ds| ==> Standing(k, o, head, nodes, ds, i)
  }

  ghost predicate Standing(k: Kernel, o: Layout, head: int, nodes: seq<int>, ds: seq<Dev>, i: nat)
    requires i < |ds| < |nodes|
  {
    nodes[i] != head && DeviceIn(k, o, nodes[i], nodes[i + 1], ds[i])
  }

  function NamesOf(ds: seq<Dev>): seq<seq<seq<byte>>> {
    if ds == [] then [] else NamesOf(ds[..|ds| - 1]) + [ds[|ds| - 1].names]
  }

  /** Devices and addresses, counted one by one. */
  function Objects(ds: seq<Dev>): nat {
    if ds == [] then 0 else Objects(ds[..|ds| - 1]) + 1 + |ds[|ds| - 1].names|
  }

  ghost predicate InMemory(k: Kernel, o: Layout, net: int, nodes: seq<int>, ds: seq<Dev>) {
    && Ring(k, o, net + o.head, nodes, ds) && Word(k, net + o.head, nodes[0]) && nodes[|ds|] == net + o.head
    && Objects(ds) <= 4096
  }

  // ---------------------------------------------------------------------------
  // Addresses
  // ---------------------------------------------------------------------------

  lemma OneAddress(k: Kernel, o: Layout, inDev: int, ifa: int, name: seq<byte>, next: int)
    ensures AddressIn(k, o, inDev, ifa, name, next) <==> ifa != 0 && AddressAt(k, o, inDev, ifa, name) && ReadPtr(k, ifa + o.ifaNext) == Some(next)
  {
    assert 0 in name <==> exists i :: 0 <= i < |name| && name[i] == 0;
  }

  lemma ChainShorter(k: Kernel, o: Layout, inDev: int, links: seq<int>, names: seq<seq<byte>>)
    requires Chain(k, o, inDev, links, names) && names != []
    ensures Chain(k, o, inDev, links[..|names|], names[..|names| - 1])
  {
    var n := |names| - 1;
    var fewer, ns := links[..n + 1], names[..n];
    forall j: nat | j < n
      ensures Linked(k, o, inDev, fewer, ns, j)
    {
      assert Linked(k, o, inDev, links, names, j);
    }
  }

  lemma {:induction false} ChainIsFollowed(k: Kernel, o: Layout, inDev: int, links: seq<int>, names: seq<seq<byte>>)
    requires Chain(k, o, inDev, links, names)
    ensures Follow(k, o, inDev, links[0], names) == Some(links[|names|])
    decreases |names|
  {
    if names != [] {
      var n := |names| - 1;
      ChainShorter(k, o, inDev, links, names);
      ChainIsFollowed(k, o, inDev, links[..n + 1], names[..n]);
      assert Linked(k, o, inDev, links, names, n);
      OneAddress(k, o, inDev, links[n], names[n], links[n + 1]);
    }
  }

  lemma {:induction false} FollowedIsChain(k: Kernel, o: Layout, inDev: int, first: int, names: seq<seq<byte>>) returns (links: seq<int>)
    requires Follow(k, o, inDev, first, names).Some?
    ensures Chain(k, o, inDev, links, names) && links[0] == first && Some(links[|names|]) == Follow(k, o, inDev, first, names)
    decreases |names|
  {
    if names == [] {
      links := [first];
    } else {
      var n := |names| - 1;
      var front := FollowedIsChain(k, o, inDev, first, names[..n]);
      var next := Follow(k, o, inDev, first, names).value;
      OneAddress(k, o, inDev, front[n], names[n], next);
      links := front + [next];
      ChainLonger(k, o, inDev, front, names, next);
    }
  }

  lemma ChainLonger(k: Kernel, o: Layout, inDev: int, front: seq<int>, names: seq<seq<byte>>, next: int)
    requires names != [] && Chain(k, o, inDev, front, names[..|names| - 1])
    requires AddressIn(k, o, inDev, front[|names| - 1], names[|names| - 1], next)
    ensures Chain(k, o, inDev, front + [next], names)
  {
    var n, links := |names| - 1, front + [next];
    forall j: nat | j < |names|
      ensures Linked(k, o, inDev, links, names, j)
    {
      assert j < n ==> Linked(k, o, inDev, front, names[..n], j);
    }
  }

  // ---------------------------------------------------------------------------
  // Devices
  // ---------------------------------------------------------------------------

  lemma DeviceInIsAt(k: Kernel, o: Layout, node: int, next: int, d: Dev)
    requires DeviceIn(k, o, node, next, d)
    ensures DeviceAt(k, o, node, d.names) && ReadPtr(k, node) == Some(next)
  {
    if d.inDev != 0 {
      ChainIsFollowed(k, o, d.inDev, d.links, d.names);
    }
  }

  lemma DeviceAtIsIn(k: Kernel, o: Layout, node: int, names: seq<seq<byte>>) returns (next: int, d: Dev)
    requires DeviceAt(k, o, node, names)
    ensures DeviceIn(k, o, node, next, d) && d.names == names && ReadPtr(k, node) == Some(next)
  {
    next := ReadPtr(k, node).value;
    var dev := node - o.devList;
    var inDev := ReadPtr(k, dev + o.ipPtr).value;
    d := Dev(inDev, [0], names);
    if inDev != 0 {
      var links := FollowedIsChain(k, o, inDev, FirstAddress(k, o, dev, inDev).value, names);
      d := Dev(inDev, links, names);
    }
  }

  lemma RingShorter(k: Kernel, o: Layout, head: int, nodes: seq<int>, ds: seq<Dev>)
    requires Ring(k, o, head, nodes, ds) && ds != []
    ensures Ring(k, o, head, nodes[..|ds|], ds[..|ds| - 1])
  {
    var n := |ds| - 1;
    var fewer, front := nodes[..n + 1], ds[..n];
    forall i: nat | i < n
      ensures Standing(k, o, head, fewer, front, i)
    {
      assert Standing(k, o, head, nodes, ds, i);
    }
  }

  lemma {:induction false} RingIsWalked(k: Kernel, o: Layout, head: int, nodes: seq<int>, ds: seq<Dev>)
    requires Ring(k, o, head, nodes, ds)
    ensures |NamesOf(ds)| == |ds| && Walk(k, o, head, nodes[0], NamesOf(ds)) == Some(nodes[|ds|])
    decreases |ds|
  {
    if ds != [] {
      var n := |ds| - 1;
      RingShorter(k, o, head, nodes, ds);
      RingIsWalked(k, o, head, nodes[..n + 1], ds[..n]);
      assert Standing(k, o, head, nodes, ds, n);
      DeviceInIsAt(k, o, nodes[n], nodes[n + 1], ds[n]);
      WalkOne(k, o, head, nodes[0], NamesOf(ds[..n]), nodes[n], ds[n].names);
    }
  }

  lemma NamesAppend(ds: seq<Dev>, d: Dev)
    ensures NamesOf(ds + [d]) == NamesOf(ds) + [d.names]
  {
    assert (ds + [d])[..|ds|] == ds;
  }

  /** The last step of a walk. */
  lemma WalkLast(k: Kernel, o: Layout, head: int, first: int, devs: seq<seq<seq<byte>>>, front: seq<seq<seq<byte>>>, names: seq<seq<byte>>)
    requires devs == front + [names] && Walk(k, o, head, first, devs).Some?
    ensures var m := Walk(k, o, head, first, front);
            m.Some? && m.value != head && DeviceAt(k, o, m.value, names) && Walk(k, o, head, first, devs) == ReadPtr(k, m.value)
  {
    assert devs[..|devs| - 1] == front;
  }

  /** What a walk is shown to be. */
  ghost predicate Shown(k: Kernel, o: Layout, head: int, first: int, devs: seq<seq<seq<byte>>>, nodes: seq<int>, ds: seq<Dev>) {
    && Ring(k, o, head, nodes, ds) && NamesOf(ds) == devs && |ds| == |devs|
    && nodes[0] == first && Some(nodes[|ds|]) == Walk(k, o, head, first, devs)
  }

  lemma ShownStep(k: Kernel, o: Layout, head: int, first: int, front: seq<seq<seq<byte>>>, names: seq<seq<byte>>, nodes: seq<int>, ds: seq<Dev>)
    returns (nodes': seq<int>, ds': seq<Dev>)
    requires Shown(k, o, head, first, front, nodes, ds) && Walk(k, o, head, first, front + [names]).Some?
    ensures Shown(k, o, head, first, front + [names], nodes', ds')
  {
    WalkLast(k, o, head, first, front + [names], front, names);
    var next, d := DeviceAtIsIn(k, o, nodes[|ds|], names);
    RingLonger(k, o, head, nodes, ds, next, d);
    NamesAppend(ds, d);
    nodes', ds' := nodes + [next], ds + [d];
  }

  lemma {:induction false} WalkedIsRing(k: Kernel, o: Layout, head: int, first: int, devs: seq<seq<seq<byte>>>) returns (nodes: seq<int>, ds: seq<Dev>)
    requires Walk(k, o, head, first, devs).Some?
    ensures Shown(k, o, head, first, devs, nodes, ds)
    decreases |devs|
  {
    if devs == [] {
      nodes, ds := [first], [];
    } else {
      var n := |devs| - 1;
      assert devs == devs[..n] + [devs[n]];
      WalkLast(k, o, head, first, devs, devs[..n], devs[n]);
      nodes, ds := WalkedIsRing(k, o, head, first, devs[..n]);
      nodes, ds := ShownStep(k, o, head, first, devs[..n], devs[n], nodes, ds);
    }
  }

  lemma RingLonger(k: Kernel, o: Layout, head: int, nodes: seq<int>, ds: seq<Dev>, next: int, d: Dev)
    requires Ring(k, o, head, nodes, ds) && nodes[|ds|] != head && DeviceIn(k, o, nodes[|ds|], next, d)
    ensures Ring(k, o, head, nodes + [next], ds + [d])
  {
    var nodes', ds' := nodes + [next], ds + [d];
    forall i: nat | i < |ds'|
      ensures Standing(k, o, head, nodes', ds', i)
    {
      assert i < |ds| ==> Standing(k, o, head, nodes, ds, i);
    }
  }

  lemma {:induction false} ObjectsCounted(ds: seq<Dev>)
    ensures |NamesOf(ds)| == |ds| && Objects(ds) == |ds| + |Names(NamesOf(ds))|
  {
    if ds != [] {
      var n := |ds| - 1;
      ObjectsCounted(ds[..n]);
      assert NamesOf(ds)[..n] == NamesOf(ds[..n]);
    }
  }

  lemma ListIsThere(k: Kernel, o: Layout, net: int, devs: seq<seq<seq<byte>>>) returns (nodes: seq<int>, ds: seq<Dev>)
    requires IsList(k, o, net, devs)
    ensures InMemory(k, o, net, nodes, ds) && NamesOf(ds) == devs
  {
    nodes, ds := WalkedIsRing(k, o, net + o.head, ReadPtr(k, net + o.head).value, devs);
    ObjectsCounted(ds);
  }

  lemma ListFrom(k: Kernel, o: Layout, net: int, first: int, devs: seq<seq<seq<byte>>>)
    requires Word(k, net + o.head, first) && Walk(k, o, net + o.head, first, devs) == Some(net + o.head) && |devs| + |Names(devs)| <= 4096
    ensures IsList(k, o, net, devs)
  {
  }

  lemma ThereIsWalked(k: Kernel, o: Layout, net: int, nodes: seq<int>, ds: seq<Dev>, head: int)
    requires InMemory(k, o, net, nodes, ds) && head == net + o.head
    ensures |nodes| > 0 && Word(k, head, nodes[0]) && Walk(k, o, head, nodes[0], NamesOf(ds)) == Some(head)
  {
    RingIsWalked(k, o, head, nodes, ds);
  }

  lemma ThereIsList(k: Kernel, o: Layout, net: int, nodes: seq<int>, ds: seq<Dev>)
    requires InMemory(k, o, net, nodes, ds)
    ensures IsList(k, o, net, NamesOf(ds))
  {
    ThereIsWalked(k, o, net, nodes, ds, net + o.head);
    ObjectsCounted(ds);
    ListFrom(k, o, net, nodes[0], NamesOf(ds));
  }

  /** Whatever the walk takes for a list with these names is in memory, word for word, and
      whatever is in memory is such a list. */
  lemma ListsAreInMemory(k: Kernel, o: Layout, net: int, devs: seq<seq<seq<byte>>>)
    ensures IsList(k, o, net, devs) <==> exists nodes, ds :: InMemory(k, o, net, nodes, ds) && NamesOf(ds) == devs
  {
    if IsList(k, o, net, devs) {
      var nodes, ds := ListIsThere(k, o, net, devs);
    }
    forall nodes, ds | InMemory(k, o, net, nodes, ds) && NamesOf(ds) == devs
      ensures IsList(k, o, net, devs)
    {
      ThereIsList(k, o, net, nodes, ds);
    }
  }
}
