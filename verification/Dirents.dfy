/** Raw getdents64 buffers: entries named after a VPN interface are dropped in place. */
module Dirents {
  import opened Bytes
  import opened Compaction

  const RECLEN_AT: nat := 16
  const NAME_AT: nat := 19

  predicate Whole(s: seq<byte>) { NAME_AT <= |s| && NAME_AT <= U16(s, RECLEN_AT) <= |s| }

  function EntryCut(s: seq<byte>): (n: nat)
    ensures n <= |s| && (n > 0 <==> Whole(s))
  {
    if Whole(s) then U16(s, RECLEN_AT) else 0
  }

  function Name(entry: seq<byte>): seq<byte> { if |entry| < NAME_AT then [] else CString(entry[NAME_AT..]) }

  function Dropped(vpn: seq<byte> -> bool): seq<byte> -> bool {
    entry => Name(entry) != [] && vpn(Name(entry))
  }

  lemma EntriesAreFramed()
    ensures Framed(EntryCut)
  {
    forall s: seq<byte>, t: seq<byte> | Parses(EntryCut, s) && (EntryCut(s) == |s| ==> t == [])
      ensures EntryCut(s[..EntryCut(s)] + t) == EntryCut(s)
    {
      assert U16(s[..EntryCut(s)] + t, RECLEN_AT) == U16(s, RECLEN_AT);
    }
  }

  /** Filtering twice changes nothing more; what is left are the visible entries. */
  lemma EntriesStayFiltered(vpn: seq<byte> -> bool, s: seq<byte>)
    ensures var once := Filter(EntryCut, Dropped(vpn), s);
            Filter(EntryCut, Dropped(vpn), once) == once && Records(EntryCut, once) == Kept(Dropped(vpn), Records(EntryCut, s))
  {
    EntriesAreFramed();
    FilterTwice(EntryCut, Dropped(vpn), s);
    ReparsesAsKept(EntryCut, Dropped(vpn), s);
  }

  /** dent64_name_is_vpn: a C string's C string is itself. */
  method NameIsVpn(entry: seq<byte>, vpn: seq<byte> -> bool) returns (yes: bool)
    ensures yes == Dropped(vpn)(entry)
  {
    if |entry| < NAME_AT {
      assert Name(entry) == [];
      return false;
    }
    var name := entry[NAME_AT..];
    var end: nat := 0;
    while end < |name| && name[end] != 0
      invariant end <= |name| && forall i :: 0 <= i < end ==> name[i] != 0
    {
      end := end + 1;
    }
    assert Before(name, Nul) == end == Before(name[..end], Nul);
    assert CString(name[..end]) == name[..end] == Name(entry);
    yes := end != 0 && vpn(CString(name[..end]));
  }

  method NextEntry(a: array<byte>, src: nat, count: nat) returns (n: nat)
    requires src <= count <= a.Length
    ensures n == EntryCut(a[src..count]) <= count - src
  {
    if src + NAME_AT > count {
      return 0;
    }
    n := U16(a[src..count], RECLEN_AT);
    if n < NAME_AT || src + n > count {
      n := 0;
    }
  }

  /** The entry at src and whether it is dropped; none when n is 0. */
  method Judge(a: array<byte>, src: nat, count: nat, vpn: seq<byte> -> bool, ghost cut: Cut, ghost drop: seq<byte> -> bool) returns (n: nat, hidden: bool)
    requires src <= count <= a.Length && cut == EntryCut && drop == Dropped(vpn)
    ensures n == cut(a[src..count]) <= count - src && (n > 0 ==> hidden == drop(a[src..src + n]))
  {
    n := NextEntry(a, src, count);
    hidden := false;
    if n > 0 {
      hidden := NameIsVpn(a[src..src + n], vpn);
    }
  }

  /** Skip or keep the entry that was judged. */
  method EntryTurn(a: array<byte>, count: nat, src: nat, dst: nat, n: nat, hidden: bool, ghost cut: Cut, ghost drop: seq<byte> -> bool, ghost was: seq<byte>)
    returns (src': nat, dst': nat)
    requires src <= count == a.Length && Halfway(cut, drop, was, a[..], 0, count, src, dst)
    requires n == cut(a[src..count]) <= count - src && (n > 0 ==> hidden == drop(a[src..src + n]))
    modifies a
    ensures Halfway(cut, drop, was, a[..], 0, count, src', dst')
    ensures if n > 0 then src < src' else src' == src && !Parses(cut, a[src..count])
  {
    if n == 0 {
      return src, dst;
    }
    dst' := Settle(a, cut, drop, was, 0, count, src, dst, n, hidden);
    src' := src + n;
  }

  /** compact_dents64. */
  method CompactDents(a: array<byte>, vpn: seq<byte> -> bool) returns (len: nat)
    modifies a
    ensures len <= a.Length && a[..len] == Filter(EntryCut, Dropped(vpn), old(a[..])) && a[len..] == old(a[len..])
  {
    ghost var was, cut, drop := a[..], EntryCut, Dropped(vpn);
    var count, src: nat, dst: nat, more := a.Length, 0, 0, true;
    HalfwayStart(cut, drop, was, 0, count);
    while more
      invariant Halfway(cut, drop, was, a[..], 0, count, src, dst)
      invariant more || !Parses(cut, a[src..count])
      decreases count - src, more
    {
      var n, hidden := Judge(a, src, count, vpn, cut, drop);
      src, dst := EntryTurn(a, count, src, dst, n, hidden, cut, drop, was);
      more := n > 0;
    }
    len := FinishTail(a, cut, drop, was, count, src, dst);
    assert was[..count] == was;
  }

  // ---------------------------------------------------------------------------
  // Entries as the kernel writes them
  // ---------------------------------------------------------------------------

  /** Inode and offset, type, name; the name ends in a NUL and any padding follows. */
  datatype Entry = Entry(head: seq<byte>, kind: byte, name: seq<byte>, pad: seq<byte>)

  predicate EntryOk(e: Entry) {
    |e.head| == 16 && (forall i :: 0 <= i < |e.name| ==> e.name[i] != 0) && 20 + |e.name| + |e.pad| < 0x1_0000
  }

  function EntryBytes(e: Entry): seq<byte>
    requires EntryOk(e)
  {
    e.head + Le16(20 + |e.name| + |e.pad|) + [e.kind] + (e.name + [0] + e.pad)
  }

  predicate AllOk(es: seq<Entry>) { forall i :: 0 <= i < |es| ==> EntryOk(es[i]) }

  function EntriesBytes(es: seq<Entry>): seq<byte>
    requires AllOk(es)
  {
    if es == [] then [] else EntryBytes(es[0]) + EntriesBytes(es[1..])
  }

  predicate HiddenEntry(e: Entry, vpn: seq<byte> -> bool) { e.name != [] && vpn(e.name) }

  function VisibleEntries(es: seq<Entry>, vpn: seq<byte> -> bool): seq<Entry> {
    if es == [] then [] else (if HiddenEntry(es[0], vpn) then [] else [es[0]]) + VisibleEntries(es[1..], vpn)
  }

  lemma NameEnds(name: seq<byte>, pad: seq<byte>)
    requires forall i :: 0 <= i < |name| ==> name[i] != 0
    ensures CString(name + [0] + pad) == name
  {
    var s := name + [0] + pad;
    assert s[|name|] == 0 && forall i :: 0 <= i < |name| ==> s[i] == name[i];
    assert Before(s, Nul) == |name|;
  }

  lemma EntryReads(e: Entry, more: seq<byte>, b: seq<byte>, s: seq<byte>)
    requires EntryOk(e) && b == EntryBytes(e) && s == b + more
    ensures |b| == 20 + |e.name| + |e.pad| && EntryCut(s) == |b| && Name(b) == e.name
  {
    assert s[16..18] == b[16..18] == Le16(|b|);
    Read16(s, 16, |b|);
    assert b[19..] == e.name + [0] + e.pad;
    NameEnds(e.name, e.pad);
  }

  lemma EntryStep(e: Entry, more: seq<byte>, b: seq<byte>, s: seq<byte>, vpn: seq<byte> -> bool)
    requires EntryOk(e) && b == EntryBytes(e) && s == b + more
    ensures Filter(EntryCut, Dropped(vpn), s) == (if HiddenEntry(e, vpn) then [] else b) + Filter(EntryCut, Dropped(vpn), more)
  {
    EntryReads(e, more, b, s);
    FilterStep(EntryCut, Dropped(vpn), s);
    assert s[..|b|] == b && s[|b|..] == more;
  }

  lemma {:induction false} VisibleOk(es: seq<Entry>, vpn: seq<byte> -> bool)
    requires AllOk(es)
    ensures AllOk(VisibleEntries(es, vpn))
  {
    if es != [] {
      VisibleOk(es[1..], vpn);
    }
  }

  lemma VisibleStep(e: Entry, rest: seq<Entry>, vpn: seq<byte> -> bool, left: seq<Entry>)
    requires EntryOk(e) && AllOk(left) && left == VisibleEntries(rest, vpn)
    ensures AllOk(VisibleEntries([e] + rest, vpn))
    ensures EntriesBytes(VisibleEntries([e] + rest, vpn)) == (if HiddenEntry(e, vpn) then [] else EntryBytes(e)) + EntriesBytes(left)
  {
    assert ([e] + rest)[1..] == rest;
    if HiddenEntry(e, vpn) {
      assert VisibleEntries([e] + rest, vpn) == left;
    } else {
      assert ([e] + left)[1..] == left;
    }
  }

  /** Filtering a directory listing leaves exactly the entries not named after a VPN, byte for
      byte and in order, then whatever follows them. */
  lemma {:induction false} ListingIsFiltered(es: seq<Entry>, tail: seq<byte>, vpn: seq<byte> -> bool)
    requires AllOk(es)
    ensures AllOk(VisibleEntries(es, vpn))
    ensures Filter(EntryCut, Dropped(vpn), EntriesBytes(es) + tail) == EntriesBytes(VisibleEntries(es, vpn)) + Filter(EntryCut, Dropped(vpn), tail)
    decreases |es|
  {
    VisibleOk(es, vpn);
    if es == [] {
      assert EntriesBytes(es) + tail == tail;
    } else {
      var e, rest := es[0], es[1..];
      var b, more := EntryBytes(e), EntriesBytes(rest);
      assert es == [e] + rest;
      ListingIsFiltered(rest, tail, vpn);
      Regroup(b, more, tail);
      EntryStep(e, more + tail, b, EntriesBytes(es) + tail, vpn);
      VisibleStep(e, rest, vpn, VisibleEntries(rest, vpn));
      Regroup(if HiddenEntry(e, vpn) then [] else b, EntriesBytes(VisibleEntries(rest, vpn)), Filter(EntryCut, Dropped(vpn), tail));
    }
  }
}
