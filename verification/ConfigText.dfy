/** The text a configuration is sent as, and that the parser reads it back: the same default,
    the same debug flag, every target under its own mask, and with that the decision for every
    uid and hook. */
module ConfigText {
  import opened Options
  import opened Wire
  import opened TargetSet
  import opened ConfigWire
  import opened Printer
  import opened Truncation
  import opened Reports
  import opened Policy

  // ---------------------------------------------------------------------------
  // Grouping
  // ---------------------------------------------------------------------------

  function Insert(x: nat, s: seq<nat>): seq<nat> {
    if s == [] || x <= s[0] then [x] + s else [s[0]] + Insert(x, s[1..])
  }

  /** The numbers of s in ascending order. */
  function Ascending(s: seq<nat>): seq<nat> {
    if s == [] then [] else Insert(s[0], Ascending(s[1..]))
  }

  /** s without repeated neighbours. */
  function Dedup(s: seq<nat>): seq<nat> {
    if |s| < 2 then s else if s[0] == s[1] then Dedup(s[1..]) else [s[0]] + Dedup(s[1..])
  }

  function MasksOf(targets: seq<Target>): seq<nat> {
    if targets == [] then [] else [targets[0].mask] + MasksOf(targets[1..])
  }

  function UidsOf(targets: seq<Target>, mask: nat): seq<nat> {
    if targets == [] then []
    else (if targets[0].mask == mask then [targets[0].uid] else []) + UidsOf(targets[1..], mask)
  }

  /** One record per uid. */
  function Under(mask: nat, uids: seq<nat>): seq<Target> {
    if uids == [] then [] else [Target(uids[0], mask)] + Under(mask, uids[1..])
  }

  function Group(targets: seq<Target>, mask: nat): seq<Target> { Under(mask, Ascending(UidsOf(targets, mask))) }

  /** The groups of the given masks, one after the other. */
  function Groups(targets: seq<Target>, masks: seq<nat>): seq<Target> {
    if masks == [] then [] else Groups(targets, masks[..|masks| - 1]) + Group(targets, masks[|masks| - 1])
  }

  function GroupMasks(targets: seq<Target>): seq<nat> { Dedup(Ascending(MasksOf(targets))) }

  /** The targets by ascending mask, by ascending uid under each. */
  function Grouped(targets: seq<Target>): seq<Target> { Groups(targets, GroupMasks(targets)) }

  predicate Rising(s: seq<nat>) { forall i, j :: 0 <= i < j < |s| ==> s[i] <= s[j] }

  predicate Strict(s: seq<nat>) { forall i, j :: 0 <= i < j < |s| ==> s[i] < s[j] }

  lemma RisingCons(x: nat, s: seq<nat>)
    requires Rising(s) && (s != [] ==> x <= s[0])
    ensures Rising([x] + s)
  {
    assert forall i :: 0 < i <= |s| ==> ([x] + s)[i] == s[i - 1];
  }

  lemma StrictCons(x: nat, s: seq<nat>)
    requires Strict(s) && (s != [] ==> x < s[0])
    ensures Strict([x] + s)
  {
    assert forall i :: 0 < i <= |s| ==> ([x] + s)[i] == s[i - 1];
  }

  lemma {:induction false} InsertRises(x: nat, s: seq<nat>)
    requires Rising(s)
    ensures Rising(Insert(x, s)) && Insert(x, s) != [] && Insert(x, s)[0] == if s != [] && s[0] < x then s[0] else x
  {
    if s == [] || x <= s[0] {
      RisingCons(x, s);
    } else {
      InsertRises(x, s[1..]);
      RisingCons(s[0], Insert(x, s[1..]));
    }
  }

  lemma {:induction false} InsertAdds(x: nat, s: seq<nat>)
    ensures multiset(Insert(x, s)) == multiset(s) + multiset{x}
  {
    if s != [] && s[0] < x {
      InsertAdds(x, s[1..]);
      assert s == [s[0]] + s[1..];
    }
  }

  lemma {:induction false} AscendingSorts(s: seq<nat>)
    ensures Rising(Ascending(s)) && multiset(Ascending(s)) == multiset(s)
  {
    if s != [] {
      AscendingSorts(s[1..]);
      InsertRises(s[0], Ascending(s[1..]));
      InsertAdds(s[0], Ascending(s[1..]));
      assert s == [s[0]] + s[1..];
    }
  }

  lemma {:induction false} DedupKeeps(s: seq<nat>)
    requires Rising(s)
    ensures Strict(Dedup(s)) && (s != [] ==> Dedup(s) != [] && Dedup(s)[0] == s[0])
    ensures forall x :: x in multiset(Dedup(s)) <==> x in multiset(s)
  {
    if |s| >= 2 {
      DedupKeeps(s[1..]);
      assert s == [s[0]] + s[1..];
      if s[0] != s[1] {
        StrictCons(s[0], Dedup(s[1..]));
      }
    }
  }

  lemma {:induction false} MaskListed(targets: seq<Target>, t: Target)
    requires t in targets
    ensures t.mask in MasksOf(targets)
  {
    if targets[0] != t {
      assert t in targets[1..];
      MaskListed(targets[1..], t);
    }
  }

  /** The masks printed: strictly ascending, and the mask of every target is among them. */
  lemma MasksAscend(targets: seq<Target>)
    ensures Strict(GroupMasks(targets)) && forall t :: t in targets ==> t.mask in GroupMasks(targets)
  {
    var all := MasksOf(targets);
    AscendingSorts(all);
    DedupKeeps(Ascending(all));
    forall t | t in targets
      ensures t.mask in GroupMasks(targets)
    {
      MaskListed(targets, t);
      assert t.mask in multiset(all);
      assert t.mask in multiset(Ascending(all));
      assert t.mask in multiset(GroupMasks(targets));
    }
  }

  // ---------------------------------------------------------------------------
  // Grouping permutes
  // ---------------------------------------------------------------------------

  lemma {:induction false} UnderCounts(mask: nat, uids: seq<nat>, t: Target)
    ensures multiset(Under(mask, uids))[t] == if t.mask == mask then multiset(uids)[t.uid] else 0
  {
    if uids != [] {
      UnderCounts(mask, uids[1..], t);
      assert uids == [uids[0]] + uids[1..];
    }
  }

  lemma {:induction false} UidsCounted(targets: seq<Target>, mask: nat, u: nat)
    ensures multiset(UidsOf(targets, mask))[u] == multiset(targets)[Target(u, mask)]
  {
    if targets != [] {
      UidsCounted(targets[1..], mask, u);
      assert targets == [targets[0]] + targets[1..];
    }
  }

  lemma GroupCounts(targets: seq<Target>, mask: nat, t: Target)
    ensures multiset(Group(targets, mask))[t] == if t.mask == mask then multiset(targets)[t] else 0
  {
    var uids := UidsOf(targets, mask);
    AscendingSorts(uids);
    UnderCounts(mask, Ascending(uids), t);
    UidsCounted(targets, mask, t.uid);
  }

  lemma LastIsNew(masks: seq<nat>, n: nat, m: nat)
    requires Strict(masks) && n == |masks| - 1
    ensures masks[n] !in masks[..n] && (m in masks <==> m in masks[..n] || m == masks[n])
  {
    assert masks == masks[..n] + [masks[n]];
  }

  lemma {:induction false} GroupsCount(targets: seq<Target>, masks: seq<nat>, t: Target)
    requires Strict(masks)
    ensures multiset(Groups(targets, masks))[t] == if t.mask in masks then multiset(targets)[t] else 0
  {
    if masks != [] {
      var n := |masks| - 1;
      GroupsCount(targets, masks[..n], t);
      GroupCounts(targets, masks[n], t);
      LastIsNew(masks, n, t.mask);
    }
  }

  lemma SameCounts(a: multiset<Target>, b: multiset<Target>)
    requires forall t :: a[t] == b[t]
    ensures a == b
  {
  }

  /** Grouping loses and adds nothing. */
  lemma GroupedPermutes(targets: seq<Target>)
    ensures multiset(Grouped(targets)) == multiset(targets) && |Grouped(targets)| == |targets|
  {
    MasksAscend(targets);
    forall t
      ensures multiset(Grouped(targets))[t] == multiset(targets)[t]
    {
      GroupsCount(targets, GroupMasks(targets), t);
      assert t in targets || multiset(targets)[t] == 0;
    }
    SameCounts(multiset(Grouped(targets)), multiset(targets));
    assert |Grouped(targets)| == |multiset(Grouped(targets))| && |targets| == |multiset(targets)|;
  }

  // ---------------------------------------------------------------------------
  // The text
  // ---------------------------------------------------------------------------

  function Bare(v: nat): string { DigitText(v, 16) }

  function BareWords(s: seq<nat>): seq<string> {
    if s == [] then [] else [Bare(s[0])] + BareWords(s[1..])
  }

  function GroupLine(mask: nat, uids: seq<nat>): string { "targets" + Spaced([Bare(mask)] + BareWords(uids)) }

  function GroupLines(targets: seq<Target>, masks: seq<nat>): seq<string> {
    if masks == [] then []
    else GroupLines(targets, masks[..|masks| - 1]) + [GroupLine(masks[|masks| - 1], Ascending(UidsOf(targets, masks[|masks| - 1])))]
  }

  function DebugLine(debug: bool): string { "debug" + " " + if debug then "1" else "0" }

  function DefaultLines(mask: nat): seq<string> { if mask == 0 then [] else ["default" + " " + Bare(mask)] }

  function ConfigLines(debug: bool, defaultMask: nat, targets: seq<Target>): seq<string> {
    [DebugLine(debug)] + DefaultLines(defaultMask) + GroupLines(targets, GroupMasks(targets)) + ["end" + " " + Bare(|targets|)]
  }

  function ConfigText(debug: bool, defaultMask: nat, targets: seq<Target>): string {
    Unlines(["vpnhide" + " " + "2" + " " + "config"] + ConfigLines(debug, defaultMask, targets))
  }

  // ---------------------------------------------------------------------------
  // What each line says
  // ---------------------------------------------------------------------------

  predicate Narrow(s: seq<nat>) { forall i :: 0 <= i < |s| ==> s[i] <= U32_MAX }

  lemma BareReads(v: nat)
    ensures TokenChars(Bare(v)) && Bare(v) != "" && (v <= U32_MAX ==> Hex32(Bare(v)) == Some(v))
  {
    DigitTextDigits(v, 16);
    DigitTextValue(v, 16);
  }

  /** The uid tokens of a group, for any tokens: the i-th adds the uid of its value. */
  lemma {:induction false} UidTokens(r: Reading, mask: nat, toks: seq<string>)
    ensures var good := forall i :: 0 <= i < |toks| ==> Hex32(toks[i]).Some?;
            var s := ReadUids(r, mask, toks);
            && s.clean == (r.clean && good)
            && (good ==> |s.records| == |r.records| + |toks| && s.records[..|r.records|] == r.records)
            && (good ==> forall i :: 0 <= i < |toks| ==> s.records[|r.records| + i] == Target(Hex32(toks[i]).value, mask))
    decreases |toks|
  {
    if toks != [] && Hex32(toks[0]).Some? {
      var r' := r.(records := r.records + [Target(Hex32(toks[0]).value, mask)]);
      UidTokens(r', mask, toks[1..]);
      assert forall i :: 0 < i < |toks| ==> toks[i] == toks[1..][i - 1];
    }
  }

  /** A `targets` line: its second token is the mask of every uid after it. */
  lemma TargetsLine(r: Reading, line: string)
    requires Significant(line) && Ascii(line) && |Tokens(line)| >= 2 && Tokens(line)[0] == "targets" && Hex32(Tokens(line)[1]).Some?
    ensures var t, s := Tokens(line), ReadLine(r, line);
            var good := forall i :: 2 <= i < |t| ==> Hex32(t[i]).Some?;
            && s.clean == (r.clean && good) && s.declared == r.declared && s.defaultMask == r.defaultMask && s.debug == r.debug
            && (good ==> |s.records| == |r.records| + |t| - 2 && s.records[..|r.records|] == r.records)
            && (good ==> forall i :: 2 <= i < |t| ==> s.records[|r.records| + i - 2] == Target(Hex32(t[i]).value, Hex32(t[1]).value))
  {
    var t := Tokens(line);
    var mask := Hex32(t[1]).value;
    UidTokens(r, mask, t[2..]);
    UidsKeepRest(r, mask, t[2..]);
    assert forall i :: 2 <= i < |t| ==> t[i] == t[2..][i - 2];
  }

  /** The other records, and the lines that say nothing. */
  lemma OtherLines(r: Reading, line: string)
    ensures var t, s := Tokens(line), ReadLine(r, line);
            && (!Significant(line) || !Ascii(line) || |t| < 2 ==> s == r)
            && (|t| >= 1 && t[0] != "debug" && t[0] != "default" && t[0] != "targets" && t[0] != "end" ==> s == r)
            && (Significant(line) && Ascii(line) && |t| >= 2 ==>
                  && (t[0] == "debug" ==> s == r.(debug := if t[1] == "0" then Some(false) else if t[1] == "1" then Some(true) else r.debug))
                  && (t[0] == "default" ==> s == if Hex32(t[1]).Some? then r.(defaultMask := Hex32(t[1]).value) else r)
                  && (t[0] == "end" ==> s == if Hex32(t[1]).Some? then r.(declared := Hex32(t[1])) else r)
                  && (t[0] == "targets" && Hex32(t[1]).None? ==> s == r))
  {
  }

  lemma ReadUidsCons(r: Reading, mask: nat, tok: string, rest: seq<string>, uid: nat)
    requires Hex32(tok) == Some(uid)
    ensures ReadUids(r, mask, [tok] + rest) == ReadUids(r.(records := r.records + [Target(uid, mask)]), mask, rest)
  {
    assert ([tok] + rest)[1..] == rest;
  }

  lemma Shifted(a: seq<Target>, t: Target, b: seq<Target>)
    ensures a + [t] + b == a + ([t] + b)
  {
  }

  lemma {:induction false} BareAreWords(uids: seq<nat>)
    ensures Words(BareWords(uids))
  {
    if uids != [] {
      BareReads(uids[0]);
      BareAreWords(uids[1..]);
    }
  }

  lemma {:induction false} UnderReads(r: Reading, mask: nat, uids: seq<nat>)
    requires Narrow(uids)
    ensures ReadUids(r, mask, BareWords(uids)) == r.(records := r.records + Under(mask, uids))
    decreases |uids|
  {
    if uids == [] {
      assert r.records + [] == r.records;
    } else {
      var t := Target(uids[0], mask);
      BareReads(uids[0]);
      UnderReads(r.(records := r.records + [t]), mask, uids[1..]);
      ReadUidsCons(r, mask, Bare(uids[0]), BareWords(uids[1..]), uids[0]);
      Shifted(r.records, t, Under(mask, uids[1..]));
    }
  }

  lemma AsciiLine(line: string)
    requires LineChars(line)
    ensures Ascii(line)
  {
  }

  lemma GroupLineReads(r: Reading, mask: nat, uids: seq<nat>, line: string)
    requires mask <= U32_MAX && Narrow(uids) && line == GroupLine(mask, uids)
    ensures LineChars(line) && ReadLine(r, line) == r.(records := r.records + Under(mask, uids))
  {
    var words := [Bare(mask)] + BareWords(uids);
    BareReads(mask);
    UnderReads(r, mask, uids);
    BareAreWords(uids);
    KeyLine("targets", words);
    TokensRead(r, line, "targets", Bare(mask), BareWords(uids), mask);
  }

  lemma TokensRead(r: Reading, line: string, key: string, head: string, rest: seq<string>, mask: nat)
    requires Ascii(line) && Significant(line) && Tokens(line) == [key] + ([head] + rest) && key == "targets" && Hex32(head) == Some(mask)
    ensures ReadLine(r, line) == ReadUids(r, mask, rest)
  {
    var t := Tokens(line);
    assert t[0] == key && t[1] == head && t[2..] == rest;
  }

  lemma KeyLine(key: string, words: seq<string>)
    requires Words(words) && TokenChars(key) && key != "" && key[0] != '#'
    ensures var line := key + Spaced(words); LineChars(line) && Ascii(line) && Significant(line) && Tokens(line) == [key] + words
  {
    SpacedShape(words);
    TokenCons(key, Spaced(words));
    RowTokens(key, words);
    AsciiLine(key + Spaced(words));
  }

  predicate Fits32(targets: seq<Target>) { forall i :: 0 <= i < |targets| ==> targets[i].uid <= U32_MAX && targets[i].mask <= U32_MAX }

  lemma {:induction false} UidsNarrow(targets: seq<Target>, mask: nat)
    requires Fits32(targets)
    ensures Narrow(UidsOf(targets, mask))
  {
    if targets != [] {
      UidsNarrow(targets[1..], mask);
    }
  }

  lemma {:induction false} MasksNarrow(targets: seq<Target>)
    requires Fits32(targets)
    ensures Narrow(MasksOf(targets))
  {
    if targets != [] {
      MasksNarrow(targets[1..]);
    }
  }

  lemma NarrowSame(a: seq<nat>, b: seq<nat>)
    requires Narrow(a) && forall x :: x in multiset(b) ==> x in multiset(a)
    ensures Narrow(b)
  {
    forall i | 0 <= i < |b|
      ensures b[i] <= U32_MAX
    {
      assert b[i] in multiset(b);
    }
  }

  lemma AllNarrow(targets: seq<Target>, mask: nat)
    requires Fits32(targets)
    ensures Narrow(Ascending(UidsOf(targets, mask))) && Narrow(GroupMasks(targets))
  {
    UidsNarrow(targets, mask);
    AscendingSorts(UidsOf(targets, mask));
    NarrowSame(UidsOf(targets, mask), Ascending(UidsOf(targets, mask)));
    MasksNarrow(targets);
    AscendingSorts(MasksOf(targets));
    DedupKeeps(Ascending(MasksOf(targets)));
    NarrowSame(MasksOf(targets), GroupMasks(targets));
  }

  predicate AllLines(lines: seq<string>) { forall i :: 0 <= i < |lines| ==> LineChars(lines[i]) }

  /** One more line. */
  lemma LineAfter(r: Reading, lines: seq<string>, line: string, mid: Reading, last: Reading)
    requires ReadLines(r, lines) == mid && ReadLine(mid, line) == last
    ensures ReadLines(r, lines + [line]) == last
  {
    ReadLinesSplit(r, lines, [line]);
    ReadLinesUnfold(mid, line, []);
    assert [line] + [] == [line];
  }

  lemma Regrouped(a: seq<Target>, b: seq<Target>, c: seq<Target>)
    ensures a + b + c == a + (b + c)
  {
  }

  /** One more group. */
  lemma GroupAfter(r: Reading, before: seq<Target>, group: seq<Target>, lines: seq<string>, line: string, mid: Reading)
    requires AllLines(lines) && LineChars(line) && mid == r.(records := r.records + before)
    requires ReadLines(r, lines) == mid && ReadLine(mid, line) == mid.(records := mid.records + group)
    ensures AllLines(lines + [line]) && ReadLines(r, lines + [line]) == r.(records := r.records + (before + group))
  {
    Regrouped(r.records, before, group);
    LineAfter(r, lines, line, mid, mid.(records := mid.records + group));
  }

  lemma {:induction false} GroupLinesRead(r: Reading, targets: seq<Target>, masks: seq<nat>)
    requires Fits32(targets) && Narrow(masks)
    ensures AllLines(GroupLines(targets, masks)) && ReadLines(r, GroupLines(targets, masks)) == r.(records := r.records + Groups(targets, masks))
  {
    if masks == [] {
      assert r.records + [] == r.records;
    } else {
      var front, m := masks[..|masks| - 1], masks[|masks| - 1];
      var uids := Ascending(UidsOf(targets, m));
      var mid := r.(records := r.records + Groups(targets, front));
      GroupLinesRead(r, targets, front);
      AllNarrow(targets, m);
      GroupLineReads(mid, m, uids, GroupLine(m, uids));
      GroupAfter(r, Groups(targets, front), Under(m, uids), GroupLines(targets, front), GroupLine(m, uids), mid);
    }
  }

  lemma DebugReads(r: Reading, debug: bool)
    ensures LineChars(DebugLine(debug)) && ReadLine(r, DebugLine(debug)) == r.(debug := Some(debug))
  {
    TwoWords("debug", if debug then "1" else "0");
  }

  lemma NumberReads(r: Reading, key: string, v: nat)
    requires v <= U32_MAX && (key == "default" || key == "end")
    ensures LineChars(key + " " + Bare(v))
    ensures ReadLine(r, key + " " + Bare(v)) == if key == "default" then r.(defaultMask := v) else r.(declared := Some(v))
  {
    BareReads(v);
    TwoWords(key, Bare(v));
  }

  lemma FrontReads(debug: bool, defaultMask: nat)
    requires defaultMask <= U32_MAX
    ensures var lines := [DebugLine(debug)] + DefaultLines(defaultMask);
            AllLines(lines) && ReadLines(NOTHING, lines) == Reading([], true, None, defaultMask, Some(debug))
  {
    var d := [DebugLine(debug)];
    DebugReads(NOTHING, debug);
    LineAfter(NOTHING, [], DebugLine(debug), NOTHING, NOTHING.(debug := Some(debug)));
    assert [] + d == d;
    if defaultMask == 0 {
      assert d + [] == d;
    } else {
      var r := NOTHING.(debug := Some(debug));
      NumberReads(r, "default", defaultMask);
      LineAfter(NOTHING, d, "default" + " " + Bare(defaultMask), r, r.(defaultMask := defaultMask));
    }
  }

  lemma Joined(front: seq<string>, groups: seq<string>, last: string, r: Reading, mid: Reading, whole: Reading)
    requires AllLines(front) && AllLines(groups) && LineChars(last)
    requires ReadLines(NOTHING, front) == r && ReadLines(r, groups) == mid && ReadLine(mid, last) == whole
    ensures AllLines(front + groups + [last]) && ReadLines(NOTHING, front + groups + [last]) == whole
  {
    ReadLinesSplit(NOTHING, front, groups);
    LineAfter(NOTHING, front + groups, last, mid, whole);
  }

  lemma ConfigLinesRead(debug: bool, defaultMask: nat, targets: seq<Target>)
    requires Fits32(targets) && defaultMask <= U32_MAX && |targets| <= U32_MAX
    ensures var lines := ConfigLines(debug, defaultMask, targets);
            AllLines(lines) && ReadLines(NOTHING, lines) == Reading(Grouped(targets), true, Some(|targets|), defaultMask, Some(debug))
  {
    var r := Reading([], true, None, defaultMask, Some(debug));
    var masks := GroupMasks(targets);
    FrontReads(debug, defaultMask);
    AllNarrow(targets, 0);
    GroupLinesRead(r, targets, masks);
    assert [] + Groups(targets, masks) == Grouped(targets);
    var mid := r.(records := Grouped(targets));
    NumberReads(mid, "end", |targets|);
    Joined([DebugLine(debug)] + DefaultLines(defaultMask), GroupLines(targets, masks), "end" + " " + Bare(|targets|), r, mid, mid.(declared := Some(|targets|)));
  }

  // ---------------------------------------------------------------------------
  // Round trip
  // ---------------------------------------------------------------------------

  /** Reading a printed configuration gives its default mask, its debug flag, its count and its
      targets, by ascending mask. */
  lemma PrintedReadsBack(debug: bool, defaultMask: nat, targets: seq<Target>)
    requires Fits32(targets) && defaultMask <= U32_MAX && |targets| <= U32_MAX
    ensures var text := ConfigText(debug, defaultMask, targets);
            && Header(Lines(text)).0 == ConfigKind
            && Payload(text) == Reading(Grouped(targets), true, Some(|targets|), defaultMask, Some(debug))
    ensures multiset(Grouped(targets)) == multiset(targets)
  {
    var h := "vpnhide" + " " + "2" + " " + "config";
    ConfigHeader(h);
    ConfigLinesRead(debug, defaultMask, targets);
    HeaderOf(h, ConfigLines(debug, defaultMask, targets));
    GroupedPermutes(targets);
  }

  /** No uid under two masks. */
  predicate OneMaskEach(targets: seq<Target>) {
    forall i, j :: 0 <= i < |targets| && 0 <= j < |targets| && targets[i].uid == targets[j].uid ==> targets[i].mask == targets[j].mask
  }

  lemma {:induction false} MapOfListed(targets: seq<Target>, u: nat)
    requires OneMaskEach(targets)
    ensures forall t :: t in targets && t.uid == u ==> u in MapOf(targets) && MapOf(targets)[u] == t.mask
    ensures u in MapOf(targets) ==> Target(u, MapOf(targets)[u]) in targets
  {
    if targets != [] {
      var n := |targets| - 1;
      MapOfListed(targets[..n], u);
      assert targets == targets[..n] + [targets[n]];
    }
  }

  /** A permutation of such targets builds the same map. */
  lemma MapOfPermuted(a: seq<Target>, b: seq<Target>)
    requires OneMaskEach(a) && multiset(a) == multiset(b)
    ensures MapOf(a) == MapOf(b)
  {
    SameMembers(a, b);
    OneMaskPermuted(a, b);
    forall u
      ensures (u in MapOf(a) <==> u in MapOf(b)) && (u in MapOf(a) ==> MapOf(a)[u] == MapOf(b)[u])
    {
      MapOfListed(a, u);
      MapOfListed(b, u);
    }
  }

  lemma SameMembers(a: seq<Target>, b: seq<Target>)
    requires multiset(a) == multiset(b)
    ensures forall t :: t in a <==> t in b
  {
    assert forall t :: t in a <==> t in multiset(a);
    assert forall t :: t in b <==> t in multiset(b);
  }

  lemma OneMaskPermuted(a: seq<Target>, b: seq<Target>)
    requires OneMaskEach(a) && forall t :: t in a <==> t in b
    ensures OneMaskEach(b)
  {
    forall i, j | 0 <= i < |b| && 0 <= j < |b| && b[i].uid == b[j].uid
      ensures b[i].mask == b[j].mask
    {
      assert b[i] in a && b[j] in a;
    }
  }

  /** Printing a configuration and parsing it is the identity: the text is accepted exactly when
      its uids fit, and it stands for the same map from uid to mask. */
  lemma PrintedMeansItself(debug: bool, defaultMask: nat, targets: seq<Target>, max: nat)
    requires Fits32(targets) && defaultMask <= U32_MAX && |targets| <= U32_MAX && OneMaskEach(targets)
    ensures var text := ConfigText(debug, defaultMask, targets);
            && MapOf(Payload(text).records) == MapOf(targets)
            && Payload(text).defaultMask == defaultMask && Payload(text).debug == Some(debug)
            && (Accepted(text, max) <==> |MapOf(targets)| <= max)
  {
    PrintedReadsBack(debug, defaultMask, targets);
    GroupedPermutes(targets);
    MapOfPermuted(targets, Grouped(targets));
  }

  /** Which mask a printed configuration gives a uid: the one it is listed under, else the
      default; and so which hooks fire. */
  lemma PrintedDecides(debug: bool, defaultMask: nat, targets: seq<Target>, uid: nat, hook: nat)
    requires Fits32(targets) && defaultMask <= U32_MAX && |targets| <= U32_MAX && OneMaskEach(targets)
    ensures var text := ConfigText(debug, defaultMask, targets);
            && (forall t :: t in targets && t.uid == uid ==>
                  (NaiveRule(true, text, uid, hook) <==> uid % 100_000 >= 10_000 && hook in Hooks(t.mask) && (hook <= 9 || hook == 25 || hook == 27)))
            && ((forall t :: t in targets ==> t.uid != uid) ==>
                  (NaiveRule(true, text, uid, hook) <==> uid % 100_000 >= 10_000 && hook in Hooks(defaultMask) && (hook <= 9 || hook == 25 || hook == 27)))
  {
    PrintedMeansItself(debug, defaultMask, targets, 0);
    MapOfListed(targets, uid);
    OwnedHooks(NaiveMask(ConfigText(debug, defaultMask, targets), uid), hook);
  }

  // ---------------------------------------------------------------------------
  // The text depends on the set alone
  // ---------------------------------------------------------------------------

  lemma {:induction false} RisingUnique(a: seq<nat>, b: seq<nat>)
    requires Rising(a) && Rising(b) && multiset(a) == multiset(b)
    ensures a == b
  {
    assert |a| == |multiset(a)| && |b| == |multiset(b)|;
    if a != [] {
      LeastFirst(a, b);
      LeastFirst(b, a);
      assert a == [a[0]] + a[1..] && b == [b[0]] + b[1..];
      assert multiset(a[1..]) == multiset(a) - multiset{a[0]} && multiset(b[1..]) == multiset(b) - multiset{b[0]};
      RisingUnique(a[1..], b[1..]);
    }
  }

  lemma LeastFirst(a: seq<nat>, b: seq<nat>)
    requires Rising(a) && multiset(a) == multiset(b) && a != [] && b != []
    ensures a[0] <= b[0]
  {
    assert b[0] in multiset(b);
    assert b[0] in a;
  }

  lemma TailHas(a: seq<nat>, x: nat)
    requires Strict(a) && a != []
    ensures x in a[1..] <==> x in a && x != a[0]
  {
    assert a == [a[0]] + a[1..];
  }

  lemma HasMember(a: seq<nat>)
    ensures a != [] ==> exists x :: x in a
  {
    if a != [] {
      assert a[0] in a;
    }
  }

  lemma {:induction false} StrictUnique(a: seq<nat>, b: seq<nat>)
    requires Strict(a) && Strict(b) && forall x :: x in a <==> x in b
    ensures a == b
  {
    if a != [] {
      assert a[0] in b;
      assert b[0] in a;
      assert a[0] == b[0];
      assert a == [a[0]] + a[1..] && b == [b[0]] + b[1..];
      forall x: nat
        ensures x in a[1..] <==> x in b[1..]
      {
        TailHas(a, x);
        TailHas(b, x);
      }
      StrictUnique(a[1..], b[1..]);
    } else {
      HasMember(b);
    }
  }

  lemma {:induction false} MaskHasTarget(targets: seq<Target>, mask: nat)
    requires mask in MasksOf(targets)
    ensures exists t :: t in targets && t.mask == mask
  {
    if targets[0].mask == mask {
      assert targets[0] in targets;
    } else {
      MaskHasTarget(targets[1..], mask);
      var t :| t in targets[1..] && t.mask == mask;
      assert t in targets;
    }
  }

  lemma MaskIsUsed(targets: seq<Target>, mask: nat)
    requires mask in GroupMasks(targets)
    ensures exists t :: t in targets && t.mask == mask
  {
    var all := MasksOf(targets);
    AscendingSorts(all);
    DedupKeeps(Ascending(all));
    assert mask in multiset(GroupMasks(targets));
    assert mask in multiset(all);
    MaskHasTarget(targets, mask);
  }

  lemma MasksWithin(a: seq<Target>, b: seq<Target>, mask: nat)
    requires (forall t :: t in a ==> t in b) && mask in GroupMasks(a)
    ensures mask in GroupMasks(b)
  {
    MaskIsUsed(a, mask);
    MasksAscend(b);
  }

  ghost function CountOf(s: multiset<nat>, u: nat): nat { s[u] }

  lemma SameNumbers(x: multiset<nat>, y: multiset<nat>)
    requires forall u: nat :: CountOf(x, u) == CountOf(y, u)
    ensures x == y
  {
    assert forall u: nat :: x[u] == CountOf(x, u) && y[u] == CountOf(y, u);
  }

  lemma SameUids(a: seq<Target>, b: seq<Target>, mask: nat)
    requires multiset(a) == multiset(b)
    ensures Ascending(UidsOf(a, mask)) == Ascending(UidsOf(b, mask))
  {
    var x, y := UidsOf(a, mask), UidsOf(b, mask);
    forall u: nat
      ensures CountOf(multiset(x), u) == CountOf(multiset(y), u)
    {
      UidsCounted(a, mask, u);
      UidsCounted(b, mask, u);
    }
    SameNumbers(multiset(x), multiset(y));
    AscendingSorts(x);
    AscendingSorts(y);
    RisingUnique(Ascending(x), Ascending(y));
  }

  lemma {:induction false} SameGroupLines(a: seq<Target>, b: seq<Target>, masks: seq<nat>)
    requires multiset(a) == multiset(b)
    ensures GroupLines(a, masks) == GroupLines(b, masks)
  {
    if masks != [] {
      SameGroupLines(a, b, masks[..|masks| - 1]);
      SameUids(a, b, masks[|masks| - 1]);
    }
  }

  lemma SameMasks(a: seq<Target>, b: seq<Target>)
    requires multiset(a) == multiset(b)
    ensures GroupMasks(a) == GroupMasks(b)
  {
    SameMembers(a, b);
    MasksAscend(a);
    MasksAscend(b);
    forall m
      ensures m in GroupMasks(a) <==> m in GroupMasks(b)
    {
      if m in GroupMasks(a) {
        MasksWithin(a, b, m);
      } else if m in GroupMasks(b) {
        MasksWithin(b, a, m);
      }
    }
    StrictUnique(GroupMasks(a), GroupMasks(b));
  }

  /** However the targets are listed, the text is the same. */
  lemma TextOfSet(debug: bool, defaultMask: nat, a: seq<Target>, b: seq<Target>)
    requires multiset(a) == multiset(b)
    ensures ConfigText(debug, defaultMask, a) == ConfigText(debug, defaultMask, b)
  {
    SameMasks(a, b);
    SameGroupLines(a, b, GroupMasks(a));
    assert |a| == |multiset(a)| && |b| == |multiset(b)|;
  }

  // ---------------------------------------------------------------------------
  // The producer
  // ---------------------------------------------------------------------------

  lemma {:induction false} BareWordsAppend(s: seq<nat>, v: nat)
    ensures BareWords(s + [v]) == BareWords(s) + [Bare(v)]
  {
    var all := s + [v];
    if s == [] {
      assert all[1..] == [] && BareWords(all[1..]) == [];
    } else {
      assert all[1..] == s[1..] + [v] && all[0] == s[0];
      BareWordsAppend(s[1..], v);
    }
  }

  lemma WordAfter(mask: nat, uids: seq<nat>, v: nat)
    ensures GroupLine(mask, uids + [v]) == GroupLine(mask, uids) + (" " + Bare(v))
  {
    BareWordsAppend(uids, v);
    var words := [Bare(mask)] + BareWords(uids);
    assert [Bare(mask)] + BareWords(uids + [v]) == words + [Bare(v)];
    SpacedAppend(words, Bare(v));
  }

  lemma EmptyGroup(mask: nat)
    ensures GroupLine(mask, []) == "targets " + Bare(mask)
  {
    var words := [Bare(mask)];
    assert words + BareWords([]) == words;
    assert Spaced(words) == " " + Bare(mask) + Spaced(words[1..]);
    assert Spaced(words[1..]) == "";
    assert "targets" + (" " + Bare(mask)) == "targets " + Bare(mask);
  }

  /** One `targets` record. */
  method PutGroup(before: string, mask: nat, uids: seq<nat>) returns (out: string, n: nat)
    ensures out == before + (GroupLine(mask, uids) + "\n") && n == |uids|
  {
    ghost var line := "targets " + Bare(mask);
    out, n := before + ("targets " + Bare(mask)), 0;
    EmptyGroup(mask);
    while n < |uids|
      invariant n <= |uids| && line == GroupLine(mask, uids[..n]) && out == before + line
    {
      WordAfter(mask, uids[..n], uids[n]);
      assert uids[..n + 1] == uids[..n] + [uids[n]];
      out := out + (" " + Bare(uids[n]));
      line := line + (" " + Bare(uids[n]));
      n := n + 1;
    }
    assert uids[..n] == uids;
    out := out + "\n";
  }

  lemma {:induction false} UnderSize(mask: nat, uids: seq<nat>)
    ensures |Under(mask, uids)| == |uids|
  {
    if uids != [] {
      UnderSize(mask, uids[1..]);
    }
  }

  lemma OneMoreGroup(targets: seq<Target>, masks: seq<nat>, k: nat, uids: seq<nat>)
    requires k < |masks| && uids == Ascending(UidsOf(targets, masks[k]))
    ensures GroupLines(targets, masks[..k + 1]) == GroupLines(targets, masks[..k]) + [GroupLine(masks[k], uids)]
    ensures |Groups(targets, masks[..k + 1])| == |Groups(targets, masks[..k])| + |uids|
  {
    assert masks[..k + 1][..k] == masks[..k];
    UnderSize(masks[k], uids);
  }

  lemma UnlinesTwo(a: string, b: string)
    ensures Unlines([a] + [b]) == a + "\n" + (b + "\n")
  {
    UnlinesAppend([], a);
    assert [] + [a] == [a] && Unlines([]) + (a + "\n") == a + "\n";
    UnlinesAppend([a], b);
  }

  /** The lines before the groups. */
  method PutFront(debug: bool, defaultMask: nat, ghost h: string) returns (out: string, ghost lines: seq<string>)
    requires h == "vpnhide" + " " + "2" + " " + "config"
    ensures lines == [h] + ([DebugLine(debug)] + DefaultLines(defaultMask)) && out == Unlines(lines)
  {
    lines := [h] + [DebugLine(debug)];
    UnlinesTwo(h, DebugLine(debug));
    out := "vpnhide 2 config\n";
    out := out + if debug then "debug 1\n" else "debug 0\n";
    if defaultMask != 0 {
      ghost var d := "default" + " " + Bare(defaultMask);
      out, lines := PutLine(out, "default " + Bare(defaultMask), d, lines);
      assert lines == [h] + ([DebugLine(debug)] + [d]);
    } else {
      assert lines == [h] + ([DebugLine(debug)] + []);
    }
  }

  /** One line and its newline. */
  method PutLine(before: string, text: string, ghost line: string, ghost lines: seq<string>) returns (out: string, ghost after: seq<string>)
    requires before == Unlines(lines) && text == line
    ensures after == lines + [line] && out == Unlines(after)
  {
    UnlinesAppend(lines, line);
    out := before + (text + "\n");
    after := lines + [line];
  }

  method PutGroups(before: string, targets: seq<Target>, masks: seq<nat>, ghost front: seq<string>)
    returns (out: string, count: nat, ghost lines: seq<string>)
    requires before == Unlines(front)
    ensures lines == front + GroupLines(targets, masks) && out == Unlines(lines) && count == |Groups(targets, masks)|
  {
    var k := 0;
    out, count, lines := before, 0, front;
    while k < |masks|
      invariant k <= |masks| && lines == front + GroupLines(targets, masks[..k]) && out == Unlines(lines)
      invariant count == |Groups(targets, masks[..k])|
    {
      var uids := Ascending(UidsOf(targets, masks[k]));
      OneMoreGroup(targets, masks, k, uids);
      UnlinesAppend(lines, GroupLine(masks[k], uids));
      var n;
      out, n := PutGroup(out, masks[k], uids);
      lines := lines + [GroupLine(masks[k], uids)];
      count, k := count + n, k + 1;
    }
    assert masks[..k] == masks;
  }

  lemma Assembled(h: string, front: seq<string>, groups: seq<string>, last: string)
    ensures [h] + front + groups + [last] == [h] + (front + groups + [last])
  {
  }

  /** The text of a configuration. */
  method FormatConfig(debug: bool, defaultMask: nat, targets: seq<Target>) returns (out: string)
    ensures out == ConfigText(debug, defaultMask, targets)
  {
    ghost var h := "vpnhide" + " " + "2" + " " + "config";
    ghost var lines;
    out, lines := PutFront(debug, defaultMask, h);
    var masks := GroupMasks(targets);
    var count;
    out, count, lines := PutGroups(out, targets, masks, lines);
    GroupedPermutes(targets);
    ghost var last := "end" + " " + Bare(count);
    out, lines := PutLine(out, "end " + Bare(count), last, lines);
    Assembled(h, [DebugLine(debug)] + DefaultLines(defaultMask), GroupLines(targets, masks), last);
  }
}
