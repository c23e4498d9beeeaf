/** Netlink dumps as the kernel writes them: the filter removes exactly the messages that
    tell of a VPN, said in the terms of the messages and not of their bytes. */
module NetlinkMessages {
  import opened Options
  import opened Bytes
  import opened Compaction
  import opened Netlink

  /** An attribute of a route or a rule. What is longer than its number is kept; `Else` is any
      other attribute, or one of these too short to be read. */
  datatype Item =
    | Oif(index: nat, extra: seq<byte>)
    | InName(name: seq<byte>)
    | OutName(name: seq<byte>)
    | Table(table: nat, extra: seq<byte>)
    | Range(low: nat, high: nat, extra: seq<byte>)
    | Else(kind: nat, payload: seq<byte>)

  /** A message: `mid` are the ten header bytes after the type, `first` and `fixed` the bytes
      of the fixed part before the index or the attributes. `Other` is any other type, or one of
      these types too short to be read. */
  datatype Msg =
    | Device(isLink: bool, mid: seq<byte>, first: seq<byte>, index: nat, rest: seq<byte>)
    | Route(mid: seq<byte>, fixed: seq<byte>, items: seq<Item>)
    | Rule(mid: seq<byte>, fixed: seq<byte>, items: seq<Item>)
    | Other(kind: nat, mid: seq<byte>, body: seq<byte>)

  // ---------------------------------------------------------------------------
  // Meaning
  // ---------------------------------------------------------------------------

  /** The first output interface. */
  function FirstOut(items: seq<Item>): Option<nat> {
    if items == [] then None else if items[0].Oif? then Some(items[0].index) else FirstOut(items[1..])
  }

  function LastTable(items: seq<Item>, otherwise: nat): nat {
    if items == [] then otherwise
    else var n := |items| - 1; if items[n].Table? then items[n].table else LastTable(items[..n], otherwise)
  }

  function LastRange(items: seq<Item>): Option<(nat, nat)> {
    if items == [] then None
    else var n := |items| - 1; if items[n].Range? then Some((items[n].low, items[n].high)) else LastRange(items[..n])
  }

  predicate NamedVpn(item: Item, vpn: seq<byte> -> bool) {
    (item.InName? || item.OutName?) && item.name != [] && vpn(CString(item.name))
  }

  /** Does a message tell of a VPN? */
  predicate Tells(m: Msg, indices: seq<nat>, uid: nat, vpn: seq<byte> -> bool) {
    match m
    case Device(_, _, _, index, _) => index in indices
    case Route(_, _, items) => FirstOut(items).Some? && FirstOut(items).value in indices
    case Rule(_, fixed, items) =>
      || (exists i :: 0 <= i < |items| && NamedVpn(items[i], vpn))
      || (var table, range := LastTable(items, if |fixed| > 4 then fixed[4] else 0), LastRange(items);
          && range.Some? && range.value.0 <= uid <= range.value.1 && !(range.value.0 == 0 && range.value.1 == 4294967295)
          && table > 100 && table != 253 && table != 254 && table != 255)
    case Other(_, _, _) => false
  }

  function Visible(ms: seq<Msg>, indices: seq<nat>, uid: nat, vpn: seq<byte> -> bool): seq<Msg> {
    if ms == [] then []
    else (if Tells(ms[0], indices, uid, vpn) then [] else [ms[0]]) + Visible(ms[1..], indices, uid, vpn)
  }

  // ---------------------------------------------------------------------------
  // Bytes
  // ---------------------------------------------------------------------------

  function Zeros(n: nat): (s: seq<byte>)
    ensures |s| == n
  {
    seq(n, _ => 0)
  }

  function Kind(x: Item): nat {
    match x
    case Oif(_, _) => 4 case InName(_) => 3 case OutName(_) => 17 case Table(_, _) => 15 case Range(_, _, _) => 20 case Else(kind, _) => kind
  }

  predicate ItemOk(x: Item) {
    match x
    case Oif(index, extra) => index < 0x1_0000_0000 && |extra| < 0xfff8
    case InName(name) => |name| < 0xfffc
    case OutName(name) => |name| < 0xfffc
    case Table(table, extra) => table < 0x1_0000_0000 && |extra| < 0xfff8
    case Range(low, high, extra) => low < 0x1_0000_0000 && high < 0x1_0000_0000 && |extra| < 0xfff4
    case Else(kind, payload) =>
      && kind < 0x1_0000 && |payload| < 0xfffc && kind != 3 && kind != 17
      && (kind == 4 || kind == 15 ==> |payload| < 4) && (kind == 20 ==> |payload| < 8)
  }

  function PayloadOf(x: Item): (s: seq<byte>)
    requires ItemOk(x)
    ensures |s| < 0xfffc
  {
    match x
    case Oif(index, extra) => Le32(index) + extra
    case InName(name) => name
    case OutName(name) => name
    case Table(table, extra) => Le32(table) + extra
    case Range(low, high, extra) => Le32(low) + Le32(high) + extra
    case Else(_, payload) => payload
  }

  predicate ItemsOk(items: seq<Item>) { forall i :: 0 <= i < |items| ==> ItemOk(items[i]) }

  /** Length, type, payload, padding to a multiple of four. */
  function AttrBytes(kind: nat, payload: seq<byte>): seq<byte>
    requires kind < 0x1_0000 && |payload| < 0xfffc
  {
    Le16(4 + |payload|) + Le16(kind) + payload + Zeros(Align(4 + |payload|) - (4 + |payload|))
  }

  function AttrsBytes(items: seq<Item>): seq<byte>
    requires ItemsOk(items)
  {
    if items == [] then [] else AttrBytes(Kind(items[0]), PayloadOf(items[0])) + AttrsBytes(items[1..])
  }

  function MsgKind(m: Msg): nat {
    match m
    case Device(isLink, _, _, _, _) => if isLink then 16 else 20
    case Route(_, _, _) => 24
    case Rule(_, _, _) => 32
    case Other(kind, _, _) => kind
  }

  predicate MsgOk(m: Msg) {
    && |m.mid| == 10
    && match m
       case Device(_, _, first, index, rest) => |first| == 4 && index < 0x1_0000_0000
       case Route(_, fixed, items) => |fixed| == 12 && ItemsOk(items)
       case Rule(_, fixed, items) => |fixed| == 12 && ItemsOk(items)
       case Other(kind, _, body) =>
         kind < 0x1_0000 && (kind == 16 || kind == 20 ==> |body| < 8) && (kind == 24 || kind == 32 ==> |body| < 12)
  }

  function BodyBytes(m: Msg): seq<byte>
    requires MsgOk(m)
  {
    match m
    case Device(_, _, first, index, rest) => first + Le32(index) + rest
    case Route(_, fixed, items) => fixed + AttrsBytes(items)
    case Rule(_, fixed, items) => fixed + AttrsBytes(items)
    case Other(_, _, body) => body
  }

  predicate Sendable(m: Msg) { MsgOk(m) && 16 + |BodyBytes(m)| < 0x1_0000_0000 }

  /** Length, type, the rest of the header, the body. */
  function Bare(kind: nat, mid: seq<byte>, body: seq<byte>): seq<byte>
    requires kind < 0x1_0000 && 16 + |body| < 0x1_0000_0000
  {
    Le32(16 + |body|) + Le16(kind) + mid + body
  }

  /** With its padding to a multiple of four. */
  function Encode(m: Msg): seq<byte>
    requires Sendable(m)
  {
    Bare(MsgKind(m), m.mid, BodyBytes(m)) + Zeros(Align(16 + |BodyBytes(m)|) - (16 + |BodyBytes(m)|))
  }

  predicate AllSendable(ms: seq<Msg>) { forall i :: 0 <= i < |ms| ==> Sendable(ms[i]) }

  function EncodeAll(ms: seq<Msg>): seq<byte>
    requires AllSendable(ms)
  {
    if ms == [] then [] else Encode(ms[0]) + EncodeAll(ms[1..])
  }

  // ---------------------------------------------------------------------------
  // Attributes read back
  // ---------------------------------------------------------------------------

  function ToAttr(x: Item): Attr
    requires ItemOk(x)
  {
    Attr(Kind(x), PayloadOf(x))
  }

  function ToAttrs(items: seq<Item>): seq<Attr>
    requires ItemsOk(items)
  {
    if items == [] then [] else [ToAttr(items[0])] + ToAttrs(items[1..])
  }

  /** One attribute at the end of pre. */
  lemma AttrReads(pre: seq<byte>, kind: nat, payload: seq<byte>, more: seq<byte>, msg: seq<byte>)
    requires kind < 0x1_0000 && |payload| < 0xfffc && msg == pre + (AttrBytes(kind, payload) + more)
    ensures AttrAt(msg, |pre|) && U16(msg, |pre|) == 4 + |payload| && U16(msg, |pre| + 2) == kind
    ensures msg[|pre| + 4..|pre| + 4 + |payload|] == payload && |AttrBytes(kind, payload)| == Align(4 + |payload|)
  {
    var p := |pre|;
    var a := AttrBytes(kind, payload);
    assert msg[p..p + 2] == a[0..2] == Le16(4 + |payload|);
    assert msg[p + 2..p + 4] == a[2..4] == Le16(kind);
    Read16(msg, p, 4 + |payload|);
    Read16(msg, p + 2, kind);
    assert msg[p + 4..p + 4 + |payload|] == a[4..4 + |payload|] == payload;
  }

  lemma AttrsUnfold(msg: seq<byte>, pos: nat, n: nat, kind: nat)
    requires AttrAt(msg, pos) && n == U16(msg, pos) && kind == U16(msg, pos + 2)
    ensures Attrs(msg, pos) == [Attr(kind, msg[pos + 4..pos + n])] + Attrs(msg, pos + Align(n))
  {
  }

  /** One attribute of what is read. */
  lemma AttrsCons(pre: seq<byte>, kind: nat, payload: seq<byte>, more: seq<byte>, msg: seq<byte>, a: seq<byte>)
    requires kind < 0x1_0000 && |payload| < 0xfffc && a == AttrBytes(kind, payload) && msg == pre + (a + more)
    ensures Attrs(msg, |pre|) == [Attr(kind, payload)] + Attrs(msg, |pre + a|) && msg == pre + a + more
  {
    var n := 4 + |payload|;
    AttrReads(pre, kind, payload, more, msg);
    AttrsUnfold(msg, |pre|, n, kind);
    Regroup(pre, a, more);
    assert msg[|pre| + 4..|pre| + n] == payload && |pre + a| == |pre| + Align(n);
  }

  /** The attributes written are the attributes read. */
  lemma {:induction false} AttrsRead(pre: seq<byte>, items: seq<Item>, msg: seq<byte>)
    requires ItemsOk(items) && msg == pre + AttrsBytes(items)
    ensures Attrs(msg, |pre|) == ToAttrs(items)
    decreases |items|
  {
    if items == [] {
      assert !AttrAt(msg, |pre|);
    } else {
      var x := items[0];
      var a := AttrBytes(Kind(x), PayloadOf(x));
      AttrsCons(pre, Kind(x), PayloadOf(x), AttrsBytes(items[1..]), msg, a);
      AttrsRead(pre + a, items[1..], msg);
    }
  }

  lemma IsWhat(x: Item)
    requires ItemOk(x)
    ensures IsOif(ToAttr(x)) <==> x.Oif?
    ensures IsTable(ToAttr(x)) <==> x.Table?
    ensures IsRange(ToAttr(x)) <==> x.Range?
    ensures forall vpn: seq<byte> -> bool :: NamesVpn(vpn, ToAttr(x)) <==> NamedVpn(x, vpn)
  {
  }

  lemma Numbers(x: Item)
    requires ItemOk(x)
    ensures x.Oif? ==> U32(PayloadOf(x), 0) == x.index
    ensures x.Table? ==> U32(PayloadOf(x), 0) == x.table
    ensures x.Range? ==> U32(PayloadOf(x), 0) == x.low && U32(PayloadOf(x), 4) == x.high
  {
    var p := PayloadOf(x);
    match x
    case Oif(index, _) => assert p[0..4] == Le32(index); Read32(p, 0, index);
    case Table(table, _) => assert p[0..4] == Le32(table); Read32(p, 0, table);
    case Range(low, high, _) =>
      assert p[0..4] == Le32(low) && p[4..8] == Le32(high);
      Read32(p, 0, low);
      Read32(p, 4, high);
    case _ =>
  }

  lemma {:induction false} AttrsAre(items: seq<Item>, i: nat)
    requires ItemsOk(items)
    ensures |ToAttrs(items)| == |items| && (i < |items| ==> ToAttrs(items)[i] == ToAttr(items[i]))
  {
    if items != [] {
      AttrsAre(items[1..], if i == 0 then 0 else i - 1);
    }
  }

  lemma {:induction false} AttrsAppend(items: seq<Item>, x: Item)
    requires ItemsOk(items) && ItemOk(x)
    ensures ToAttrs(items + [x]) == ToAttrs(items) + [ToAttr(x)]
  {
    var all := items + [x];
    if items == [] {
      assert all[1..] == [];
    } else {
      assert all[1..] == items[1..] + [x] && all[0] == items[0];
      AttrsAppend(items[1..], x);
    }
  }

  // ---------------------------------------------------------------------------
  // Decisions
  // ---------------------------------------------------------------------------

  lemma OifLater(attrs: seq<Attr>, i: nat, index: nat)
    requires attrs != [] && !IsOif(attrs[0]) && FirstOif(attrs[1..], i, index)
    ensures FirstOif(attrs, i + 1, index)
  {
    var rest := attrs[1..];
    forall j | 0 <= j < i + 1
      ensures !IsOif(attrs[j])
    {
      assert j > 0 ==> attrs[j] == rest[..i][j - 1];
    }
  }

  lemma {:induction false} FirstOutFinds(items: seq<Item>)
    requires ItemsOk(items)
    ensures FirstOut(items).Some? ==> exists i :: FirstOif(ToAttrs(items), i, FirstOut(items).value)
    ensures FirstOut(items).None? ==> NoOif(ToAttrs(items))
  {
    if items != [] {
      var attrs, x := ToAttrs(items), items[0];
      IsWhat(x);
      Numbers(x);
      FirstOutFinds(items[1..]);
      assert attrs[1..] == ToAttrs(items[1..]);
      if x.Oif? {
        assert FirstOif(attrs, 0, x.index);
      } else if FirstOut(items).Some? {
        var i :| FirstOif(attrs[1..], i, FirstOut(items).value);
        OifLater(attrs, i, FirstOut(items).value);
      }
    }
  }

  /** What a route says. */
  lemma RouteTells(msg: seq<byte>, items: seq<Item>, indices: seq<nat>)
    requires ItemsOk(items) && AllAttrs(msg) == ToAttrs(items)
    ensures (exists index :: index in indices && RouteLeaves(msg, index)) <==> FirstOut(items).Some? && FirstOut(items).value in indices
  {
    FirstOutFinds(items);
    RouteDecision(msg, indices, FirstOut(items));
  }

  ghost predicate AnyNamed(items: seq<Item>, vpn: seq<byte> -> bool) { exists i :: 0 <= i < |items| && NamedVpn(items[i], vpn) }

  lemma NamedAppend(items: seq<Item>, x: Item, vpn: seq<byte> -> bool)
    ensures AnyNamed(items + [x], vpn) <==> AnyNamed(items, vpn) || NamedVpn(x, vpn)
  {
    var all := items + [x];
    assert all[|items|] == x;
    if AnyNamed(items, vpn) {
      var i :| 0 <= i < |items| && NamedVpn(items[i], vpn);
      assert all[i] == items[i];
    }
  }

  /** What a rule says. */
  lemma {:induction false} RuleReads(msg: seq<byte>, items: seq<Item>, vpn: seq<byte> -> bool, table: nat)
    requires ItemsOk(items) && table == if 20 < |msg| then msg[20] else 0
    ensures TableOf(msg, ToAttrs(items)) == LastTable(items, table) && RangeOf(ToAttrs(items)) == LastRange(items)
    ensures SomeName(vpn, ToAttrs(items)) <==> AnyNamed(items, vpn)
  {
    if items != [] {
      var n := |items| - 1;
      var front, x := items[..n], items[n];
      assert items == front + [x];
      RuleReads(msg, front, vpn, table);
      AttrsAppend(front, x);
      RuleStep(msg, ToAttrs(front), ToAttr(x), vpn);
      NamedAppend(front, x, vpn);
      IsWhat(x);
      Numbers(x);
    }
  }

  // ---------------------------------------------------------------------------
  // Messages read back
  // ---------------------------------------------------------------------------

  lemma HeaderReads(kind: nat, mid: seq<byte>, body: seq<byte>, msg: seq<byte>)
    requires kind < 0x1_0000 && |mid| == 10 && 16 + |body| < 0x1_0000_0000 && msg == Bare(kind, mid, body)
    ensures |msg| == 16 + |body| && U32(msg, 0) == |msg| && U16(msg, 4) == kind && msg[16..] == body
  {
    assert msg[0..4] == Le32(16 + |body|) && msg[4..6] == Le16(kind);
    Read32(msg, 0, 16 + |body|);
    Read16(msg, 4, kind);
  }

  lemma DeviceIndex(msg: seq<byte>, first: seq<byte>, index: nat, rest: seq<byte>)
    requires |msg| >= 16 && |first| == 4 && index < 0x1_0000_0000 && msg[16..] == first + Le32(index) + rest
    ensures |msg| >= 24 && U32(msg, 20) == index
  {
    assert msg[20..24] == msg[16..][4..8] == Le32(index);
    Read32(msg, 20, index);
  }

  lemma FixedThenItems(msg: seq<byte>, fixed: seq<byte>, items: seq<Item>)
    requires |msg| >= 16 && |fixed| == 12 && ItemsOk(items) && msg[16..] == fixed + AttrsBytes(items)
    ensures |msg| >= 28 && msg[20] == fixed[4] && AllAttrs(msg) == ToAttrs(items)
  {
    assert msg[20] == msg[16..][4];
    var pre := msg[..16] + fixed;
    assert msg == msg[..16] + msg[16..];
    Regroup(msg[..16], fixed, AttrsBytes(items));
    AttrsRead(pre, items, msg);
  }

  /** The bytes reveal what the message tells. */
  lemma RevealsIsTells(m: Msg, msg: seq<byte>, indices: seq<nat>, uid: nat, vpn: seq<byte> -> bool)
    requires Sendable(m) && msg == Bare(MsgKind(m), m.mid, BodyBytes(m))
    ensures |msg| >= 16 && (Reveals(msg, indices, uid, vpn) <==> Tells(m, indices, uid, vpn))
  {
    HeaderReads(MsgKind(m), m.mid, BodyBytes(m), msg);
    match m
    case Device(_, _, first, index, rest) => DeviceIndex(msg, first, index, rest);
    case Route(_, fixed, items) =>
      FixedThenItems(msg, fixed, items);
      RouteTells(msg, items, indices);
    case Rule(_, fixed, items) =>
      FixedThenItems(msg, fixed, items);
      RuleReads(msg, items, vpn, fixed[4]);
    case Other(_, _, _) =>
  }

  /** A message before others is cut off whole, with its padding. */
  lemma CutsWhole(m: Msg, more: seq<byte>, msg: seq<byte>, s: seq<byte>)
    requires Sendable(m) && msg == Bare(MsgKind(m), m.mid, BodyBytes(m)) && s == Encode(m) + more
    ensures MessageCut(s) == |Encode(m)| && Whole(Encode(m)) && Message(Encode(m)) == msg
  {
    HeaderReads(MsgKind(m), m.mid, BodyBytes(m), msg);
    var e := Encode(m);
    assert msg <= e <= s;
    U32Prefix(msg, e);
    U32Prefix(msg, s);
  }

  lemma KeepsOrDrops(m: Msg, more: seq<byte>, s: seq<byte>, indices: seq<nat>, uid: nat, vpn: seq<byte> -> bool)
    requires Sendable(m) && s == Encode(m) + more
    ensures Clean(s, indices, uid, vpn) == (if Tells(m, indices, uid, vpn) then [] else Encode(m)) + Clean(more, indices, uid, vpn)
  {
    var msg := Bare(MsgKind(m), m.mid, BodyBytes(m));
    CutsWhole(m, more, msg, s);
    RevealsIsTells(m, msg, indices, uid, vpn);
    FilterStep(MessageCut, Dropped(indices, uid, vpn), s);
    assert s[..|Encode(m)|] == Encode(m) && s[|Encode(m)|..] == more;
  }

  lemma {:induction false} VisibleSendable(ms: seq<Msg>, indices: seq<nat>, uid: nat, vpn: seq<byte> -> bool)
    requires AllSendable(ms)
    ensures AllSendable(Visible(ms, indices, uid, vpn))
  {
    if ms != [] {
      VisibleSendable(ms[1..], indices, uid, vpn);
    }
  }

  lemma EncodeCons(m: Msg, rest: seq<Msg>)
    requires Sendable(m) && AllSendable(rest)
    ensures AllSendable([m] + rest) && EncodeAll([m] + rest) == Encode(m) + EncodeAll(rest)
  {
    assert ([m] + rest)[1..] == rest;
  }

  lemma VisibleStep(m: Msg, rest: seq<Msg>, indices: seq<nat>, uid: nat, vpn: seq<byte> -> bool, left: seq<Msg>)
    requires Sendable(m) && AllSendable(left) && left == Visible(rest, indices, uid, vpn)
    ensures AllSendable(Visible([m] + rest, indices, uid, vpn))
    ensures EncodeAll(Visible([m] + rest, indices, uid, vpn)) == (if Tells(m, indices, uid, vpn) then [] else Encode(m)) + EncodeAll(left)
  {
    assert ([m] + rest)[1..] == rest;
    if Tells(m, indices, uid, vpn) {
      assert Visible([m] + rest, indices, uid, vpn) == left;
    } else {
      EncodeCons(m, left);
    }
  }

  lemma Chain(a: seq<byte>, b: seq<byte>, c: seq<byte>, d: seq<byte>)
    requires d == a + b
    ensures a + (b + c) == d + c
  {
  }

  /** Filtering a dump leaves exactly the messages that tell of no VPN, byte for byte and in
      order, then whatever follows them. */
  lemma {:induction false} DumpIsFiltered(ms: seq<Msg>, tail: seq<byte>, indices: seq<nat>, uid: nat, vpn: seq<byte> -> bool)
    requires AllSendable(ms)
    ensures AllSendable(Visible(ms, indices, uid, vpn))
    ensures Clean(EncodeAll(ms) + tail, indices, uid, vpn) == EncodeAll(Visible(ms, indices, uid, vpn)) + Clean(tail, indices, uid, vpn)
    decreases |ms|
  {
    VisibleSendable(ms, indices, uid, vpn);
    if ms == [] {
      assert EncodeAll(ms) + tail == tail;
    } else {
      var m, rest := ms[0], ms[1..];
      assert ms == [m] + rest;
      DumpIsFiltered(rest, tail, indices, uid, vpn);
      EncodeCons(m, rest);
      Chain(Encode(m), EncodeAll(rest), tail, EncodeAll(ms));
      KeepsOrDrops(m, EncodeAll(rest) + tail, EncodeAll(ms) + tail, indices, uid, vpn);
      var left := Visible(rest, indices, uid, vpn);
      VisibleStep(m, rest, indices, uid, vpn, left);
      Chain(if Tells(m, indices, uid, vpn) then [] else Encode(m), EncodeAll(left), Clean(tail, indices, uid, vpn), EncodeAll(Visible(ms, indices, uid, vpn)));
    }
  }
}
