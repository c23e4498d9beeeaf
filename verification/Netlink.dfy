/** Netlink dumps (message framing of section 2.3.2 of RFC 3549, route messages of section
    3.1.1): which messages reveal a VPN, and the in-place filter that drops them. */
module Netlink {
  import opened Options
  import opened Bytes
  import opened Compaction

  const HEADER: nat := 16
  const RTMSG: nat := 12
  const NEWLINK: nat := 16
  const NEWADDR: nat := 20
  const NEWROUTE: nat := 24
  const NEWRULE: nat := 32
  const RTA_OIF: nat := 4
  const FRA_IIFNAME: nat := 3
  const FRA_TABLE: nat := 15
  const FRA_OIFNAME: nat := 17
  const FRA_UID_RANGE: nat := 20
  const U32_MAX: nat := 0xffff_ffff

  /** The next multiple of four. */
  function Align(n: nat): (r: nat)
    ensures n <= r < n + 4 && r % 4 == 0
  {
    (n + 3) / 4 * 4
  }

  // ---------------------------------------------------------------------------
  // Attributes
  // ---------------------------------------------------------------------------

  datatype Attr = Attr(kind: nat, payload: seq<byte>)

  predicate AttrAt(msg: seq<byte>, pos: nat) {
    pos + 4 <= |msg| && 4 <= U16(msg, pos) && pos + U16(msg, pos) <= |msg|
  }

  /** The attributes from pos on, up to the first malformed one. */
  function Attrs(msg: seq<byte>, pos: nat): seq<Attr>
    decreases |msg| - pos
  {
    if AttrAt(msg, pos)
    then [Attr(U16(msg, pos + 2), msg[pos + 4..pos + U16(msg, pos)])] + Attrs(msg, pos + Align(U16(msg, pos)))
    else []
  }

  /** Those that follow the fixed header of a route or rule message. */
  function AllAttrs(msg: seq<byte>): seq<Attr> { Attrs(msg, HEADER + RTMSG) }

  predicate IsOif(a: Attr) { a.kind == RTA_OIF && |a.payload| >= 4 }

  predicate IsTable(a: Attr) { a.kind == FRA_TABLE && |a.payload| >= 4 }

  predicate IsRange(a: Attr) { a.kind == FRA_UID_RANGE && |a.payload| >= 8 }

  predicate NamesVpn(vpn: seq<byte> -> bool, a: Attr) {
    (a.kind == FRA_IIFNAME || a.kind == FRA_OIFNAME) && a.payload != [] && vpn(CString(a.payload))
  }

  /** The first output interface attribute, at position i, names the index. */
  predicate FirstOif(attrs: seq<Attr>, i: nat, index: nat) {
    i < |attrs| && IsOif(attrs[i]) && U32(attrs[i].payload, 0) == index && NoOif(attrs[..i])
  }

  predicate NoOif(attrs: seq<Attr>) { forall j :: 0 <= j < |attrs| ==> !IsOif(attrs[j]) }

  ghost predicate RouteLeaves(msg: seq<byte>, index: nat) { exists i :: FirstOif(AllAttrs(msg), i, index) }

  /** Position of the last attribute of a kind, as a position counted from 1; 0 if none. */
  function LastOf(attrs: seq<Attr>, pick: Attr -> bool): (n: nat)
    ensures n <= |attrs| && (n > 0 ==> pick(attrs[n - 1])) && forall i :: n <= i < |attrs| ==> !pick(attrs[i])
  {
    if attrs == [] then 0 else if pick(attrs[|attrs| - 1]) then |attrs| else LastOf(attrs[..|attrs| - 1], pick)
  }

  /** The table of a rule: its last table attribute, or the header's byte. */
  function TableOf(msg: seq<byte>, attrs: seq<Attr>): nat {
    var n := LastOf(attrs, IsTable);
    if n > 0 then U32(attrs[n - 1].payload, 0) else if HEADER + 4 < |msg| then msg[HEADER + 4] else 0
  }

  function RangeOf(attrs: seq<Attr>): Option<(nat, nat)> {
    var n := LastOf(attrs, IsRange);
    if n > 0 then Some((U32(attrs[n - 1].payload, 0), U32(attrs[n - 1].payload, 4))) else None
  }

  predicate SomeName(vpn: seq<byte> -> bool, attrs: seq<Attr>) {
    exists i :: 0 <= i < |attrs| && NamesVpn(vpn, attrs[i])
  }

  /** A uid steered by a range that is not everybody's into a table that is not standard. */
  predicate Steers(range: Option<(nat, nat)>, uid: nat, table: nat) {
    && range.Some? && range.value.0 <= uid <= range.value.1 && range.value != (0, U32_MAX)
    && table != 253 && table != 254 && table != 255 && table > 100
  }

  predicate RuleReveals(msg: seq<byte>, uid: nat, vpn: seq<byte> -> bool) {
    var attrs := AllAttrs(msg);
    SomeName(vpn, attrs) || Steers(RangeOf(attrs), uid, TableOf(msg, attrs))
  }

  // ---------------------------------------------------------------------------
  // Messages
  // ---------------------------------------------------------------------------

  predicate Whole(s: seq<byte>) { HEADER <= |s| && HEADER <= U32(s, 0) <= |s| }

  /** A message with its padding, as far as the buffer goes. */
  function MessageCut(s: seq<byte>): (n: nat)
    ensures n <= |s| && (n > 0 <==> Whole(s)) && (Whole(s) ==> U32(s, 0) <= n)
  {
    if !Whole(s) then 0 else if Align(U32(s, 0)) < |s| then Align(U32(s, 0)) else |s|
  }

  /** The message without its padding. */
  function Message(s: seq<byte>): seq<byte>
    requires Whole(s)
  {
    s[..U32(s, 0)]
  }

  /** Does a message reveal a VPN? */
  ghost predicate Reveals(msg: seq<byte>, indices: seq<nat>, uid: nat, vpn: seq<byte> -> bool)
    requires |msg| >= HEADER
  {
    var kind := U16(msg, 4);
    if (kind == NEWLINK || kind == NEWADDR) && |msg| >= HEADER + 8 then U32(msg, HEADER + 4) in indices
    else if kind == NEWROUTE && |msg| >= HEADER + RTMSG then exists index :: index in indices && RouteLeaves(msg, index)
    else kind == NEWRULE && |msg| >= HEADER + RTMSG && RuleReveals(msg, uid, vpn)
  }

  /** A record holds a message that reveals a VPN. */
  ghost predicate Judged(s: seq<byte>, indices: seq<nat>, uid: nat, vpn: seq<byte> -> bool) {
    Whole(s) && Reveals(Message(s), indices, uid, vpn)
  }

  ghost function Dropped(indices: seq<nat>, uid: nat, vpn: seq<byte> -> bool): seq<byte> -> bool {
    s => Judged(s, indices, uid, vpn)
  }

  /** The reply without the messages that reveal a VPN. */
  ghost function Clean(s: seq<byte>, indices: seq<nat>, uid: nat, vpn: seq<byte> -> bool): seq<byte> {
    Filter(MessageCut, Dropped(indices, uid, vpn), s)
  }

  lemma U32Prefix(s: seq<byte>, t: seq<byte>)
    requires |s| >= 4 && s <= t
    ensures U32(s, 0) == U32(t, 0)
  {
  }

  lemma MessagesAreFramed()
    ensures Framed(MessageCut)
  {
    forall s: seq<byte>, t: seq<byte> | Parses(MessageCut, s) && (MessageCut(s) == |s| ==> t == [])
      ensures MessageCut(s[..MessageCut(s)] + t) == MessageCut(s)
    {
      var n := MessageCut(s);
      U32Prefix(s[..n], s);
      U32Prefix(s[..n], s[..n] + t);
    }
  }

  /** Filtering twice changes nothing more: the result holds exactly the messages that
      reveal nothing, and the same tail. */
  lemma CleanStaysClean(s: seq<byte>, indices: seq<nat>, uid: nat, vpn: seq<byte> -> bool)
    ensures Clean(Clean(s, indices, uid, vpn), indices, uid, vpn) == Clean(s, indices, uid, vpn)
    ensures Records(MessageCut, Clean(s, indices, uid, vpn)) == Kept(Dropped(indices, uid, vpn), Records(MessageCut, s))
    ensures Tail(MessageCut, Clean(s, indices, uid, vpn)) == Tail(MessageCut, s)
  {
    MessagesAreFramed();
    FilterTwice(MessageCut, Dropped(indices, uid, vpn), s);
    ReparsesAsKept(MessageCut, Dropped(indices, uid, vpn), s);
  }

  // ---------------------------------------------------------------------------
  // route_oif
  // ---------------------------------------------------------------------------

  /** The walk's turn. */
  method NextAttr(msg: seq<byte>, pos: nat) returns (r: Option<Attr>, next: nat)
    ensures r.Some? ==> Attrs(msg, pos) == [r.value] + Attrs(msg, next) && pos < next && pos < |msg|
    ensures r.None? ==> Attrs(msg, pos) == []
  {
    if pos + 4 > |msg| {
      return None, pos;
    }
    var len, kind := U16(msg, pos), U16(msg, pos + 2);
    if len < 4 || pos + len > |msg| {
      return None, pos;
    }
    return Some(Attr(kind, msg[pos + 4..pos + len])), pos + Align(len);
  }

  method RouteOif(msg: seq<byte>) returns (oif: Option<nat>)
    ensures oif.Some? ==> RouteLeaves(msg, oif.value)
    ensures oif.None? ==> NoOif(AllAttrs(msg))
  {
    var pos := HEADER + RTMSG;
    ghost var done, all := [], AllAttrs(msg);
    while true
      invariant all == done + Attrs(msg, pos) && NoOif(done)
      decreases |msg| - pos
    {
      var a, next := NextAttr(msg, pos);
      if a.None? {
        return None;
      }
      if a.value.kind == RTA_OIF && |a.value.payload| >= 4 {
        assert all[..|done|] == done && all[|done|] == a.value;
        assert FirstOif(all, |done|, U32(a.value.payload, 0));
        return Some(U32(a.value.payload, 0));
      }
      done, pos := done + [a.value], next;
    }
  }

  // ---------------------------------------------------------------------------
  // rule_hides_vpn
  // ---------------------------------------------------------------------------

  lemma LastAppend(attrs: seq<Attr>, a: Attr, pick: Attr -> bool)
    ensures LastOf(attrs + [a], pick) == if pick(a) then |attrs| + 1 else LastOf(attrs, pick)
  {
    assert (attrs + [a])[..|attrs|] == attrs;
  }

  /** What one more attribute changes. */
  lemma RuleStep(msg: seq<byte>, attrs: seq<Attr>, a: Attr, vpn: seq<byte> -> bool)
    ensures TableOf(msg, attrs + [a]) == if IsTable(a) then U32(a.payload, 0) else TableOf(msg, attrs)
    ensures RangeOf(attrs + [a]) == if IsRange(a) then Some((U32(a.payload, 0), U32(a.payload, 4))) else RangeOf(attrs)
    ensures SomeName(vpn, attrs + [a]) == (SomeName(vpn, attrs) || NamesVpn(vpn, a))
  {
    LastAppend(attrs, a, IsTable);
    LastAppend(attrs, a, IsRange);
    NameAppend(attrs, a, vpn);
  }

  lemma NameAppend(attrs: seq<Attr>, a: Attr, vpn: seq<byte> -> bool)
    ensures SomeName(vpn, attrs + [a]) == (SomeName(vpn, attrs) || NamesVpn(vpn, a))
  {
    var all := attrs + [a];
    assert all[|attrs|] == a;
    if SomeName(vpn, attrs) {
      var i :| 0 <= i < |attrs| && NamesVpn(vpn, attrs[i]);
      assert all[i] == attrs[i];
    }
  }

  datatype RuleState = RuleState(table: nat, range: Option<(nat, nat)>, namesVpn: bool)

  ghost predicate Summary(st: RuleState, msg: seq<byte>, attrs: seq<Attr>, vpn: seq<byte> -> bool) {
    st.table == TableOf(msg, attrs) && st.range == RangeOf(attrs) && st.namesVpn == SomeName(vpn, attrs)
  }

  method ReadRuleAttr(st: RuleState, a: Attr, vpn: seq<byte> -> bool, ghost msg: seq<byte>, ghost done: seq<Attr>) returns (st': RuleState)
    requires Summary(st, msg, done, vpn)
    ensures Summary(st', msg, done + [a], vpn)
  {
    RuleStep(msg, done, a, vpn);
    st' := st;
    if (a.kind == FRA_IIFNAME || a.kind == FRA_OIFNAME) && a.payload != [] {
      if vpn(CString(a.payload)) {
        st' := st.(namesVpn := true);
      }
    } else if a.kind == FRA_TABLE && |a.payload| >= 4 {
      st' := st.(table := U32(a.payload, 0));
    } else if a.kind == FRA_UID_RANGE && |a.payload| >= 8 {
      st' := st.(range := Some((U32(a.payload, 0), U32(a.payload, 4))));
    }
  }

  lemma Shift(all: seq<Attr>, done: seq<Attr>, a: Attr, rest: seq<Attr>)
    requires all == done + ([a] + rest)
    ensures all == done + [a] + rest
  {
  }

  method Summarize(msg: seq<byte>, start: nat, vpn: seq<byte> -> bool) returns (st: RuleState)
    ensures Summary(st, msg, Attrs(msg, start), vpn)
  {
    st := RuleState(if HEADER + 4 < |msg| then msg[HEADER + 4] else 0, None, false);
    var pos := start;
    ghost var done, all := [], Attrs(msg, start);
    while true
      invariant all == done + Attrs(msg, pos) && Summary(st, msg, done, vpn)
      decreases |msg| - pos
    {
      var a, next := NextAttr(msg, pos);
      if a.None? {
        assert all == done;
        return;
      }
      Shift(all, done, a.value, Attrs(msg, next));
      st := ReadRuleAttr(st, a.value, vpn, msg, done);
      done, pos := done + [a.value], next;
    }
  }

  method RuleHidesVpn(msg: seq<byte>, uid: nat, vpn: seq<byte> -> bool) returns (yes: bool)
    ensures yes == RuleReveals(msg, uid, vpn)
  {
    var st := Summarize(msg, HEADER + RTMSG, vpn);
    yes := st.namesVpn || Steers(st.range, uid, st.table);
  }

  // ---------------------------------------------------------------------------
  // filter_netlink_dump
  // ---------------------------------------------------------------------------

  method Decide(msg: seq<byte>, indices: seq<nat>, uid: nat, vpn: seq<byte> -> bool) returns (yes: bool)
    requires |msg| >= HEADER
    ensures yes == Reveals(msg, indices, uid, vpn)
  {
    var kind := U16(msg, 4);
    if (kind == NEWLINK || kind == NEWADDR) && |msg| >= HEADER + 8 {
      yes := U32(msg, HEADER + 4) in indices;
    } else if kind == NEWROUTE && |msg| >= HEADER + RTMSG {
      var oif := RouteOif(msg);
      yes := oif.Some? && oif.value in indices;
      RouteDecision(msg, indices, oif);
    } else if kind == NEWRULE && |msg| >= HEADER + RTMSG {
      yes := RuleHidesVpn(msg, uid, vpn);
    } else {
      yes := false;
    }
  }

  lemma OneFirstOif(attrs: seq<Attr>, i: nat, j: nat, a: nat, b: nat)
    requires FirstOif(attrs, i, a) && FirstOif(attrs, j, b)
    ensures a == b
  {
  }

  /** A route leaves by one interface at most. */
  lemma RouteDecision(msg: seq<byte>, indices: seq<nat>, oif: Option<nat>)
    requires oif.Some? ==> RouteLeaves(msg, oif.value)
    requires oif.None? ==> NoOif(AllAttrs(msg))
    ensures (exists index :: index in indices && RouteLeaves(msg, index)) <==> oif.Some? && oif.value in indices
  {
    var all := AllAttrs(msg);
    forall index | index in indices && RouteLeaves(msg, index)
      ensures oif == Some(index)
    {
      var i :| FirstOif(all, i, index);
      if oif.Some? {
        var j :| FirstOif(all, j, oif.value);
        OneFirstOif(all, i, j, index, oif.value);
      }
    }
  }

  /** cut and drop stand for the framing and the judgement. */
  ghost predicate StandFor(cut: Cut, drop: seq<byte> -> bool, indices: seq<nat>, uid: nat, vpn: seq<byte> -> bool) {
    && (forall s {:trigger MessageCut(s)} :: cut(s) == MessageCut(s))
    && (forall s {:trigger Judged(s, indices, uid, vpn)} :: drop(s) == Judged(s, indices, uid, vpn))
  }

  /** The length of the message at src with its padding, 0 if none parses, and whether it is
      dropped. */
  method NextMessage(a: array<byte>, src: nat, count: nat, indices: seq<nat>, uid: nat, vpn: seq<byte> -> bool, ghost cut: Cut, ghost drop: seq<byte> -> bool)
    returns (n: nat, hidden: bool)
    requires src <= count <= a.Length && StandFor(cut, drop, indices, uid, vpn)
    ensures n == cut(a[src..count]) <= count - src && (n > 0 ==> hidden == drop(a[src..src + n]))
  {
    var rest := a[src..count];
    assert cut(rest) == MessageCut(rest);
    if src + HEADER > count {
      return 0, false;
    }
    var size := U32(rest, 0);
    if size < HEADER || size > count - src {
      return 0, false;
    }
    n := if Align(size) < count - src then Align(size) else count - src;
    hidden := Decide(a[src..src + size], indices, uid, vpn);
    ghost var r := a[src..src + n];
    assert r == rest[..n];
    U32Prefix(r, rest);
    assert Message(r) == a[src..src + size];
    assert drop(r) == Judged(r, indices, uid, vpn);
  }

  /** filter_netlink_dump on the first `count` bytes of a: nothing from the new length on is
      touched. */
  method FilterNetlinkDump(a: array<byte>, count: nat, indices: seq<nat>, uid: nat, vpn: seq<byte> -> bool) returns (len: nat)
    requires count <= a.Length
    modifies a
    ensures len <= count && a[..len] == Clean(old(a[..count]), indices, uid, vpn)
    ensures forall i :: len <= i < a.Length ==> a[i] == old(a[i])
  {
    len := CompactMessages(a, count, indices, uid, vpn, MessageCut, Dropped(indices, uid, vpn));
  }

  method MessageTurn(a: array<byte>, count: nat, src: nat, dst: nat, indices: seq<nat>, uid: nat, vpn: seq<byte> -> bool,
                     ghost cut: Cut, ghost drop: seq<byte> -> bool, ghost was: seq<byte>) returns (more: bool, src': nat, dst': nat)
    requires src <= count <= a.Length && StandFor(cut, drop, indices, uid, vpn) && Halfway(cut, drop, was, a[..], 0, count, src, dst)
    modifies a
    ensures Halfway(cut, drop, was, a[..], 0, count, src', dst')
    ensures if more then src < src' else src' == src && !Parses(cut, a[src..count])
  {
    var n, hidden := NextMessage(a, src, count, indices, uid, vpn, cut, drop);
    if n == 0 {
      return false, src, dst;
    }
    dst' := Settle(a, cut, drop, was, 0, count, src, dst, n, hidden);
    return true, src + n, dst';
  }

  method CompactMessages(a: array<byte>, count: nat, indices: seq<nat>, uid: nat, vpn: seq<byte> -> bool, ghost cut: Cut, ghost drop: seq<byte> -> bool)
    returns (len: nat)
    requires count <= a.Length && StandFor(cut, drop, indices, uid, vpn)
    modifies a
    ensures len <= count && a[..len] == Filter(cut, drop, old(a[..count]))
    ensures forall i :: len <= i < a.Length ==> a[i] == old(a[i])
  {
    ghost var was := a[..];
    var src: nat, dst: nat := 0, 0;
    HalfwayStart(cut, drop, was, 0, count);
    while true
      invariant Halfway(cut, drop, was, a[..], 0, count, src, dst)
      decreases count - src
    {
      var more;
      more, src, dst := MessageTurn(a, count, src, dst, indices, uid, vpn, cut, drop, was);
      if !more {
        break;
      }
    }
    len := FinishTail(a, cut, drop, was, count, src, dst);
  }
}
