/** SIOCGIFCONF: the filled array compacted in the caller's memory, and the size query that
    must agree with it. */
module Ifconf {
  import opened Options
  import opened Bytes

  const IFNAMSIZ: nat := 16
  const IFREQ: nat := 40

  /** One struct ifreq: the name, then the address. */
  datatype Entry = Entry(name: seq<byte>, address: seq<byte>)

  const ZERO: Entry := Entry(seq(IFNAMSIZ, _ => 0), seq(IFREQ - IFNAMSIZ, _ => 0))

  /** The local copy, whose name is terminated. */
  function Terminated(name: seq<byte>): seq<byte> { if |name| == IFNAMSIZ then name[IFNAMSIZ - 1 := 0] else name }

  function Copy(e: Entry): Entry { e.(name := Terminated(e.name)) }

  predicate Hidden(vpn: seq<byte> -> bool, e: Entry) { vpn(CString(Terminated(e.name))) }

  function Hides(vpn: seq<byte> -> bool): Entry -> bool { e => Hidden(vpn, e) }

  /** The entries that stay, in order. */
  function Visible(hides: Entry -> bool, s: seq<Entry>): (r: seq<Entry>)
    ensures |r| <= |s|
  {
    if s == [] then [] else (if hides(s[0]) then [] else [s[0]]) + Visible(hides, s[1..])
  }

  /** What the compaction leaves: an entry that moved is its terminated copy. */
  function Left(hides: Entry -> bool, s: seq<Entry>, moved: bool): seq<Entry> {
    if s == [] then []
    else if hides(s[0]) then Left(hides, s[1..], true)
    else [if moved then Copy(s[0]) else s[0]] + Left(hides, s[1..], moved)
  }

  lemma {:induction false} LeftLength(hides: Entry -> bool, s: seq<Entry>, moved: bool)
    ensures |Left(hides, s, moved)| == |Visible(hides, s)| <= |s|
  {
    if s != [] {
      LeftLength(hides, s[1..], moved || hides(s[0]));
    }
  }

  /** The kernel terminates every label, so its entries stay byte for byte. */
  lemma {:induction false} LeftIsVisible(hides: Entry -> bool, s: seq<Entry>, moved: bool)
    requires forall i :: 0 <= i < |s| ==> Copy(s[i]) == s[i]
    ensures Left(hides, s, moved) == Visible(hides, s)
  {
    if s != [] {
      LeftIsVisible(hides, s[1..], moved || hides(s[0]));
    }
  }

  // ---------------------------------------------------------------------------
  // Entries as the kernel writes them
  // ---------------------------------------------------------------------------

  /** A label, padded with NULs to 16 bytes, and its address. */
  datatype Labelled = Labelled(text: seq<byte>, address: seq<byte>)

  predicate LabelOk(x: Labelled) { |x.text| < 16 && forall i :: 0 <= i < |x.text| ==> x.text[i] != 0 }

  function EntryOf(x: Labelled): Entry
    requires LabelOk(x)
  {
    Entry(x.text + seq(16 - |x.text|, _ => 0), x.address)
  }

  predicate AllLabelled(xs: seq<Labelled>) { forall i :: 0 <= i < |xs| ==> LabelOk(xs[i]) }

  function EntriesFor(xs: seq<Labelled>): seq<Entry>
    requires AllLabelled(xs)
  {
    if xs == [] then [] else [EntryOf(xs[0])] + EntriesFor(xs[1..])
  }

  function Shown(xs: seq<Labelled>, vpn: seq<byte> -> bool): seq<Labelled> {
    if xs == [] then [] else (if vpn(xs[0].text) then [] else [xs[0]]) + Shown(xs[1..], vpn)
  }

  lemma LabelDecides(x: Labelled, vpn: seq<byte> -> bool)
    requires LabelOk(x)
    ensures (Hidden(vpn, EntryOf(x)) <==> vpn(x.text)) && Copy(EntryOf(x)) == EntryOf(x)
  {
    var name := EntryOf(x).name;
    assert name[15] == 0 && Terminated(name) == name;
    assert name[|x.text|] == 0 && forall i :: 0 <= i < |x.text| ==> name[i] == x.text[i];
    assert Before(name, Nul) == |x.text| && name[..|x.text|] == x.text;
  }

  lemma LeftCons(hides: Entry -> bool, e: Entry, rest: seq<Entry>, moved: bool)
    requires Copy(e) == e
    ensures Left(hides, [e] + rest, moved) == if hides(e) then Left(hides, rest, true) else [e] + Left(hides, rest, moved)
  {
    assert ([e] + rest)[1..] == rest;
  }

  lemma EntriesCons(x: Labelled, rest: seq<Labelled>)
    requires LabelOk(x) && AllLabelled(rest)
    ensures AllLabelled([x] + rest) && EntriesFor([x] + rest) == [EntryOf(x)] + EntriesFor(rest)
  {
    assert ([x] + rest)[1..] == rest;
  }

  lemma ShownCons(x: Labelled, rest: seq<Labelled>, vpn: seq<byte> -> bool)
    ensures Shown([x] + rest, vpn) == if vpn(x.text) then Shown(rest, vpn) else [x] + Shown(rest, vpn)
  {
    assert ([x] + rest)[1..] == rest;
  }

  /** What the compaction leaves of such a fill: exactly the entries whose label names no VPN,
      byte for byte and in order. */
  lemma {:induction false} FillIsFiltered(xs: seq<Labelled>, vpn: seq<byte> -> bool, moved: bool)
    requires AllLabelled(xs)
    ensures AllLabelled(Shown(xs, vpn)) && Left(Hides(vpn), EntriesFor(xs), moved) == EntriesFor(Shown(xs, vpn))
  {
    if xs != [] {
      var x, rest := xs[0], xs[1..];
      assert xs == [x] + rest;
      LabelDecides(x, vpn);
      FillIsFiltered(rest, vpn, moved || vpn(x.text));
      LeftCons(Hides(vpn), EntryOf(x), EntriesFor(rest), moved);
      EntriesCons(x, rest);
      ShownCons(x, rest, vpn);
      if !vpn(x.text) {
        EntriesCons(x, Shown(rest, vpn));
      }
    }
  }

  /** A name that fills its 16 bytes is cut to 15. */
  lemma UnterminatedName(name: seq<byte>, address: seq<byte>, vpn: seq<byte> -> bool)
    requires |name| == 16 && forall i :: 0 <= i < 16 ==> name[i] != 0
    ensures Hidden(vpn, Entry(name, address)) <==> vpn(name[..15])
  {
    var t := Terminated(name);
    assert t[15] == 0 && forall i :: 0 <= i < 15 ==> t[i] == name[i];
    assert Before(t, Nul) == 15 && t[..15] == name[..15];
  }

  // ---------------------------------------------------------------------------
  // filter_ifconf_buf
  // ---------------------------------------------------------------------------

  /** Where the compaction stands. */
  ghost predicate Halfway(hides: Entry -> bool, was: seq<Entry>, now: seq<Entry>, n: nat, i: nat, dst: nat) {
    && |was| == |now| && dst <= i <= n <= |was|
    && now[..dst] + Left(hides, was[i..n], dst < i) == Left(hides, was[..n], false)
    && forall k :: i <= k < |was| ==> now[k] == was[k]
  }

  lemma LeftStep(hides: Entry -> bool, was: seq<Entry>, i: nat, n: nat, moved: bool)
    requires i < n <= |was|
    ensures Left(hides, was[i..n], moved) ==
            if hides(was[i]) then Left(hides, was[i + 1..n], true) else [if moved then Copy(was[i]) else was[i]] + Left(hides, was[i + 1..n], moved)
  {
    assert was[i..n][1..] == was[i + 1..n] && was[i..n][0] == was[i];
  }

  lemma HalfwayHidden(hides: Entry -> bool, was: seq<Entry>, now: seq<Entry>, n: nat, i: nat, dst: nat)
    requires Halfway(hides, was, now, n, i, dst) && i < n && hides(now[i])
    ensures Halfway(hides, was, now, n, i + 1, dst)
  {
    LeftStep(hides, was, i, n, dst < i);
  }

  lemma HalfwayKept(hides: Entry -> bool, was: seq<Entry>, now: seq<Entry>, now': seq<Entry>, n: nat, i: nat, dst: nat, e: Entry)
    requires Halfway(hides, was, now, n, i, dst) && i < n && !hides(now[i])
    requires e == (if dst < i then Copy(now[i]) else now[i]) && now' == now[dst := e]
    ensures Halfway(hides, was, now', n, i + 1, dst + 1)
  {
    LeftStep(hides, was, i, n, dst < i);
    Appended(now, now', dst, e, Left(hides, was[i + 1..n], dst < i));
  }

  lemma Appended(now: seq<Entry>, now': seq<Entry>, dst: nat, e: Entry, rest: seq<Entry>)
    requires dst < |now| && now' == now[dst := e]
    ensures now'[..dst + 1] + rest == now[..dst] + ([e] + rest)
  {
    assert now'[..dst + 1] == now[..dst] + [e];
  }

  /** One turn of the compaction. */
  method Turn(a: array<Entry>, n: nat, i: nat, dst: nat, vpn: seq<byte> -> bool, ghost was: seq<Entry>) returns (dst': nat)
    requires i < n && Halfway(Hides(vpn), was, a[..], n, i, dst)
    modifies a
    ensures Halfway(Hides(vpn), was, a[..], n, i + 1, dst')
  {
    var tmp := Copy(a[i]);
    ghost var now := a[..];
    if vpn(CString(tmp.name)) {
      HalfwayHidden(Hides(vpn), was, now, n, i, dst);
      return dst;
    }
    if dst != i {
      a[dst] := tmp;
    }
    assert a[..] == now[dst := if dst < i then tmp else now[i]];
    HalfwayKept(Hides(vpn), was, now, a[..], n, i, dst, if dst < i then tmp else now[i]);
    dst' := dst + 1;
  }

  lemma HalfwayDone(hides: Entry -> bool, was: seq<Entry>, now: seq<Entry>, n: nat, dst: nat)
    requires Halfway(hides, was, now, n, n, dst)
    ensures now[..dst] == Left(hides, was[..n], false)
  {
    assert was[n..n] == [] && Left(hides, was[n..n], dst < n) == [];
  }

  /** The kept entries move to the front. */
  method CompactEntries(a: array<Entry>, n: nat, vpn: seq<byte> -> bool) returns (dst: nat)
    requires n <= a.Length
    modifies a
    ensures dst <= n && a[..dst] == Left(Hides(vpn), old(a[..n]), false)
    ensures forall k :: n <= k < a.Length ==> a[k] == old(a[k])
  {
    ghost var was := a[..];
    dst := 0;
    assert was[0..n] == was[..n] == a[..n];
    assert was[..0] + Left(Hides(vpn), was[0..n], false) == Left(Hides(vpn), was[..n], false);
    for i := 0 to n
      invariant Halfway(Hides(vpn), was, a[..], n, i, dst)
    {
      dst := Turn(a, n, i, dst, vpn, was);
    }
    HalfwayDone(Hides(vpn), was, a[..], n, dst);
    assert a[..][..dst] == a[..dst];
  }

  method ClearEntries(a: array<Entry>, from: nat, to: nat)
    requires from <= to <= a.Length
    modifies a
    ensures forall k :: from <= k < to ==> a[k] == ZERO
    ensures forall k :: 0 <= k < from || to <= k < a.Length ==> a[k] == old(a[k])
  {
    for k := from to to
      invariant forall j :: from <= j < k ==> a[j] == ZERO
      invariant forall j :: 0 <= j < from || k <= j < a.Length ==> a[j] == old(a[j])
    {
      a[k] := ZERO;
    }
  }

  /** filter_ifconf_buf: the slots freed in the kernel-written range are cleared; the caller's
      slots beyond it are untouched. */
  method FilterIfconfBuf(a: array<Entry>, n: nat, vpn: seq<byte> -> bool) returns (changed: bool, len: nat)
    requires n <= a.Length
    modifies a
    ensures len == |Visible(Hides(vpn), old(a[..n]))| * 40 <= n * 40 && (changed <==> len < n * 40)
    ensures var m := |Visible(Hides(vpn), old(a[..n]))|; m <= n && a[..m] == Left(Hides(vpn), old(a[..n]), false)
    ensures forall k :: |Visible(Hides(vpn), old(a[..n]))| <= k < n ==> a[k] == ZERO
    ensures forall k :: n <= k < a.Length ==> a[k] == old(a[k])
  {
    LeftLength(Hides(vpn), a[..n], false);
    var dst := CompactEntries(a, n, vpn);
    ghost var now := a[..dst];
    changed, len := dst != n, dst * IFREQ;
    ClearEntries(a, dst, n);
    assert a[..dst] == now;
  }

  // ---------------------------------------------------------------------------
  // The size query
  // ---------------------------------------------------------------------------

  datatype Address = Address(name: seq<byte>, address: seq<byte>)

  /** A device without IPv4, or its addresses. */
  datatype Device = NoInet | Inet(addresses: seq<Address>)

  function Addresses(d: Device): seq<Address> { if d.NoInet? then [] else d.addresses }

  function EntriesOf(addresses: seq<Address>): seq<Entry> {
    if addresses == [] then []
    else EntriesOf(addresses[..|addresses| - 1]) + [Entry(addresses[|addresses| - 1].name, addresses[|addresses| - 1].address)]
  }

  /** What a fault-free fill of a large enough buffer writes: one entry per address, named by
      its label. */
  function Fill(devices: seq<Device>): seq<Entry> {
    if devices == [] then [] else Fill(devices[..|devices| - 1]) + EntriesOf(Addresses(devices[|devices| - 1]))
  }

  function HiddenIn(hides: Entry -> bool, s: seq<Entry>): nat { |s| - |Visible(hides, s)| }

  lemma VisibleCons(hides: Entry -> bool, e: Entry, s: seq<Entry>)
    ensures Visible(hides, [e] + s) == (if hides(e) then [] else [e]) + Visible(hides, s)
  {
    assert ([e] + s)[1..] == s;
  }

  lemma Regroup(a: seq<Entry>, b: seq<Entry>, c: seq<Entry>)
    ensures a + (b + c) == (a + b) + c
  {
  }

  lemma {:induction false} VisibleAppend(hides: Entry -> bool, s: seq<Entry>, t: seq<Entry>)
    ensures Visible(hides, s + t) == Visible(hides, s) + Visible(hides, t)
  {
    if s == [] {
      assert s + t == t;
    } else {
      var e, rest := s[0], s[1..];
      VisibleAppend(hides, rest, t);
      VisibleFront(hides, e, rest, t);
      assert [e] + rest == s && [e] + (rest + t) == s + t;
    }
  }

  lemma VisibleFront(hides: Entry -> bool, e: Entry, rest: seq<Entry>, t: seq<Entry>)
    requires Visible(hides, rest + t) == Visible(hides, rest) + Visible(hides, t)
    ensures Visible(hides, [e] + (rest + t)) == Visible(hides, [e] + rest) + Visible(hides, t)
  {
    VisibleCons(hides, e, rest);
    VisibleCons(hides, e, rest + t);
    Regroup(if hides(e) then [] else [e], Visible(hides, rest), Visible(hides, t));
  }

  lemma HiddenStep(hides: Entry -> bool, s: seq<Entry>, addresses: seq<Address>, k: nat)
    requires k < |addresses|
    ensures HiddenIn(hides, s + EntriesOf(addresses[..k + 1])) ==
            HiddenIn(hides, s + EntriesOf(addresses[..k])) + if hides(Entry(addresses[k].name, addresses[k].address)) then 1 else 0
  {
    var e := Entry(addresses[k].name, addresses[k].address);
    var before := s + EntriesOf(addresses[..k]);
    assert addresses[..k + 1][..k] == addresses[..k];
    assert s + EntriesOf(addresses[..k + 1]) == before + [e];
    VisibleAppend(hides, before, [e]);
    assert [e][1..] == [];
  }

  /** One device's addresses. */
  method CountHidden(addresses: seq<Address>, vpn: seq<byte> -> bool, ghost s: seq<Entry>, hidden0: nat) returns (hidden: nat)
    requires hidden0 == HiddenIn(Hides(vpn), s)
    ensures hidden == HiddenIn(Hides(vpn), s + EntriesOf(addresses))
  {
    hidden := hidden0;
    assert s + EntriesOf(addresses[..0]) == s;
    for k := 0 to |addresses|
      invariant hidden == HiddenIn(Hides(vpn), s + EntriesOf(addresses[..k]))
    {
      HiddenStep(Hides(vpn), s, addresses, k);
      if vpn(CString(Terminated(addresses[k].name))) {
        hidden := hidden + 1;
      }
    }
    assert addresses[..|addresses|] == addresses;
  }

  /** filter_ifconf_size_probe: without a namespace the answer stays; otherwise it is lowered by
      what a fill would lose. */
  method SizeProbe(net: Option<seq<Device>>, len: nat, vpn: seq<byte> -> bool) returns (len': nat)
    ensures net.None? ==> len' == len
    ensures net.Some? ==> len' == if HiddenIn(Hides(vpn), Fill(net.value)) * 40 <= len then len - HiddenIn(Hides(vpn), Fill(net.value)) * 40 else 0
  {
    if net.None? {
      return len;
    }
    var devices, hidden := net.value, 0;
    for k := 0 to |devices|
      invariant hidden == HiddenIn(Hides(vpn), Fill(devices[..k]))
    {
      ghost var s := Fill(devices[..k]);
      assert devices[..k + 1][..k] == devices[..k];
      assert s + EntriesOf([]) == s;
      if devices[k].Inet? {
        hidden := CountHidden(devices[k].addresses, vpn, s, hidden);
      }
    }
    assert devices[..|devices|] == devices;
    if hidden == 0 {
      return len;
    }
    len' := if hidden * IFREQ <= len then len - hidden * IFREQ else 0;
  }

  /** The kernel's own fill. */
  method WriteEntries(a: array<Entry>, entries: seq<Entry>)
    requires |entries| <= a.Length
    modifies a
    ensures a[..|entries|] == entries
    ensures forall k :: |entries| <= k < a.Length ==> a[k] == old(a[k])
  {
    for i := 0 to |entries|
      invariant forall k :: 0 <= k < i ==> a[k] == entries[k]
      invariant forall k :: |entries| <= k < a.Length ==> a[k] == old(a[k])
    {
      a[i] := entries[i];
    }
  }

  /** Both steps of the classic two-step query, on the same devices, report the same length:
      the size query's answer is what the filtered fill reports. */
  method TwoStepQuery(devices: seq<Device>, vpn: seq<byte> -> bool, a: array<Entry>) returns (size: nat, filled: nat)
    requires |Fill(devices)| <= a.Length
    modifies a
    ensures size == filled == |Visible(Hides(vpn), Fill(devices))| * 40
    ensures a[..|Visible(Hides(vpn), Fill(devices))|] == Left(Hides(vpn), Fill(devices), false)
    ensures forall k :: |Fill(devices)| <= k < a.Length ==> a[k] == old(a[k])
  {
    var entries := Fill(devices);
    size := SizeProbe(Some(devices), |entries| * IFREQ, vpn);
    WriteEntries(a, entries);
    var changed;
    changed, filled := FilterIfconfBuf(a, |entries|, vpn);
  }
}
