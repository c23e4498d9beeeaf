/** The two /proc/net line filters: the in-process one and the kernel one, each proved to keep
    exactly the visible lines, and compared with each other. */
module ProcLines {
  import opened Bytes
  import opened Compaction

  const TAB: byte := 9
  const NEWLINE: byte := 10
  const CR: byte := 13
  const SPACE: byte := 32
  const IFNAMSIZ: nat := 16

  datatype Field = First | Last

  predicate EndsFirst(c: byte) { c == TAB || c == NEWLINE }

  predicate Blank(c: byte) { c == SPACE || c == TAB }

  predicate TrimmedByRust(c: byte) { c == NEWLINE || c == SPACE || c == TAB }

  predicate TrimmedByC(c: byte) { c == NEWLINE || c == CR || c == SPACE || c == TAB }

  /** Length without the trailing elements that satisfy `ws`. */
  function Trim(s: seq<byte>, ws: byte -> bool): (n: nat)
    ensures n <= |s| && (n > 0 ==> !ws(s[n - 1])) && forall i :: n <= i < |s| ==> ws(s[i])
  {
    if s == [] || !ws(s[|s| - 1]) then |s| else Trim(s[..|s| - 1], ws)
  }

  /** Where the last run without `sep` starts. */
  function LastRun(s: seq<byte>, sep: byte -> bool): (n: nat)
    ensures n <= |s| && (n > 0 ==> sep(s[n - 1])) && forall i :: n <= i < |s| ==> !sep(s[i])
  {
    if s == [] || sep(s[|s| - 1]) then |s| else LastRun(s[..|s| - 1], sep)
  }

  lemma TrimIs(s: seq<byte>, ws: byte -> bool, n: nat)
    requires n <= |s| && (n > 0 ==> !ws(s[n - 1])) && forall i :: n <= i < |s| ==> ws(s[i])
    ensures Trim(s, ws) == n
  {
  }

  lemma LastRunIs(s: seq<byte>, sep: byte -> bool, n: nat)
    requires n <= |s| && (n > 0 ==> sep(s[n - 1])) && forall i :: n <= i < |s| ==> !sep(s[i])
    ensures LastRun(s, sep) == n
  {
  }

  function FirstField(line: seq<byte>): seq<byte> { line[..Before(line, EndsFirst)] }

  function LastField(line: seq<byte>, ws: byte -> bool): seq<byte> {
    var trimmed := line[..Trim(line, ws)];
    trimmed[LastRun(trimmed, Blank)..]
  }

  /** The field the in-process filter looks at. */
  function RustField(field: Field, line: seq<byte>): seq<byte> {
    if field.First? then FirstField(line) else LastField(line, TrimmedByRust)
  }

  /** The field the kernel filter looks at, before it is copied into ifname. */
  function CField(field: Field, line: seq<byte>): seq<byte> {
    if field.First? then FirstField(line) else LastField(line, TrimmedByC)
  }

  /** What fits ifname besides its terminator. */
  function Short(s: seq<byte>): seq<byte> { if |s| < IFNAMSIZ then s else s[..IFNAMSIZ - 1] }

  function RustDrops(field: Field, vpn: seq<byte> -> bool): seq<byte> -> bool {
    line => RustField(field, line) != [] && vpn(CString(RustField(field, line)))
  }

  predicate CHides(field: Field, vpn: seq<byte> -> bool, line: seq<byte>) {
    CString(Short(CField(field, line))) != [] && vpn(CString(Short(CField(field, line))))
  }

  function CDrops(field: Field, vpn: seq<byte> -> bool): seq<byte> -> bool { line => CHides(field, vpn, line) }

  // ---------------------------------------------------------------------------
  // Lines
  // ---------------------------------------------------------------------------

  /** A line with its newline, or all of an unterminated last one. */
  function LineCut(s: seq<byte>): (n: nat)
    ensures n <= |s| && (s != [] ==> n > 0)
  {
    var n := Before(s, c => c == NEWLINE);
    if n < |s| then n + 1 else n
  }

  /** The line's end is where its first newline is. */
  lemma LineCutIs(s: seq<byte>, n: nat)
    requires n <= |s| && forall i :: 0 <= i < n ==> s[i] != NEWLINE
    ensures n < |s| && s[n] == NEWLINE ==> LineCut(s) == n + 1
    ensures n == |s| ==> LineCut(s) == n
  {
  }

  lemma LinesAreFramed()
    ensures Framed(LineCut)
  {
    forall s: seq<byte>, t: seq<byte> | Parses(LineCut, s) && (LineCut(s) == |s| ==> t == [])
      ensures LineCut(s[..LineCut(s)] + t) == LineCut(s)
    {
      var n := LineCut(s);
      var u := s[..n] + t;
      var m := Before(s, c => c == NEWLINE);
      assert forall i :: 0 <= i < m ==> u[i] == s[i];
      LineCutIs(u, m);
    }
  }

  // ---------------------------------------------------------------------------
  // The in-process filter
  // ---------------------------------------------------------------------------

  method FindLineEnd(a: array<byte>, src: nat, count: nat) returns (end: nat)
    requires src < count <= a.Length
    ensures end == src + LineCut(a[src..count]) && src < end <= count
  {
    var nl := src;
    while nl < count && a[nl] != NEWLINE
      invariant src <= nl <= count && forall i :: src <= i < nl ==> a[i] != NEWLINE
    {
      nl := nl + 1;
    }
    end := if nl < count then nl + 1 else count;
    LineCutIs(a[src..count], nl - src);
  }

  /** Kept lines move to the front, in order. */
  method CompactLines(a: array<byte>, drop: seq<byte> -> bool) returns (len: nat)
    modifies a
    ensures len <= a.Length && a[..len] == Filter(LineCut, drop, old(a[..])) && a[len..] == old(a[len..])
  {
    ghost var was := a[..];
    len := LineLoop(a, drop, LineCut);
    HalfwayEnd(LineCut, drop, was, a[..], 0, a.Length, len);
    assert a[..][0..len] == a[..len] && was[0..a.Length] == was;
  }

  method LineLoop(a: array<byte>, drop: seq<byte> -> bool, ghost cut: Cut) returns (len: nat)
    requires forall s {:trigger LineCut(s)} :: cut(s) == LineCut(s)
    modifies a
    ensures Halfway(cut, drop, old(a[..]), a[..], 0, a.Length, a.Length, len)
  {
    ghost var was := a[..];
    var src: nat := 0;
    len := 0;
    HalfwayStart(cut, drop, was, 0, a.Length);
    while src < a.Length
      invariant Halfway(cut, drop, was, a[..], 0, a.Length, src, len)
    {
      var end := FindLineEnd(a, src, a.Length);
      len := Settle(a, cut, drop, was, 0, a.Length, src, len, end - src, drop(a[src..end]));
      src := end;
    }
  }

  /** extract_last_field. */
  method ExtractLastField(line: seq<byte>) returns (name: seq<byte>)
    ensures name == LastField(line, TrimmedByRust)
  {
    var end: nat := |line|;
    while end > 0 && TrimmedByRust(line[end - 1])
      invariant end <= |line| && forall i :: end <= i < |line| ==> TrimmedByRust(line[i])
    {
      end := end - 1;
    }
    TrimIs(line, TrimmedByRust, end);
    var start: nat := end;
    while start > 0 && !Blank(line[start - 1])
      invariant start <= end && forall i :: start <= i < end ==> !Blank(line[i])
    {
      start := start - 1;
    }
    LastRunIs(line[..end], Blank, start);
    name := line[start..end];
  }

  /** filter_route_buf and filter_by_last_field. */
  method FilterLines(a: array<byte>, field: Field, vpn: seq<byte> -> bool) returns (len: nat)
    modifies a
    ensures len <= a.Length && a[..len] == Filter(LineCut, RustDrops(field, vpn), old(a[..])) && a[len..] == old(a[len..])
  {
    len := CompactLines(a, RustDrops(field, vpn));
  }

  // ---------------------------------------------------------------------------
  // The kernel filter
  // ---------------------------------------------------------------------------

  lemma ShortIs(s: seq<byte>, name: seq<byte>)
    requires name <= s && |name| < IFNAMSIZ && (|name| == |s| || |name| == IFNAMSIZ - 1)
    ensures Short(s) == name
  {
    assert |name| == |s| ==> s == name;
  }

  /** Bytes from `from` on are copied into ifname until `end` or until it is full, and
      terminated. */
  method CopyName(a: array<byte>, from: nat, end: nat, ifname: array<byte>)
    requires from <= end <= a.Length && ifname.Length == IFNAMSIZ && a != ifname
    modifies ifname
    ensures CString(ifname[..]) == CString(Short(a[from..end]))
  {
    var j: nat := 0;
    while j < IFNAMSIZ - 1 && from + j < end
      invariant j <= IFNAMSIZ - 1 && from + j <= end && ifname[..j] == a[from..from + j]
    {
      ifname[j] := a[from + j];
      j := j + 1;
    }
    ghost var name := a[from..from + j];
    ShortIs(a[from..end], name);
    ifname[j] := 0;
    assert ifname[..][..j] == ifname[..j] == name;
    Terminated(ifname[..], j);
  }

  /** A C string ends at its terminator at the latest. */
  lemma Terminated(s: seq<byte>, j: nat)
    requires j < |s| && s[j] == 0
    ensures CString(s) == CString(s[..j])
  {
    var m := Before(s[..j], Nul);
    assert m < j ==> s[..j][m] == s[m];
    assert Before(s, Nul) == m;
    assert s[..j][..m] == s[..m];
  }

  method EndOfFirst(a: array<byte>, src: nat, end: nat) returns (fe: nat)
    requires src <= end <= a.Length
    ensures src <= fe <= end && a[src..fe] == FirstField(a[src..end])
  {
    ghost var line := a[src..end];
    fe := src;
    while fe < end && a[fe] != TAB && a[fe] != NEWLINE
      invariant src <= fe <= end && forall i :: 0 <= i < fe - src ==> !EndsFirst(line[i])
    {
      fe := fe + 1;
    }
    var n := Before(line, EndsFirst);
    assert fe - src <= n;
    assert n <= fe - src;
  }

  method EndOfLast(a: array<byte>, src: nat, end: nat) returns (fe: nat)
    requires src <= end <= a.Length
    ensures src <= fe <= end && fe - src == Trim(a[src..end], TrimmedByC)
  {
    ghost var line := a[src..end];
    fe := end;
    while fe > src && TrimmedByC(a[fe - 1])
      invariant src <= fe <= end && forall i :: fe - src <= i < |line| ==> TrimmedByC(line[i])
    {
      fe := fe - 1;
    }
    TrimIs(line, TrimmedByC, fe - src);
  }

  method StartOfLast(a: array<byte>, src: nat, fe: nat) returns (fs: nat)
    requires src <= fe <= a.Length
    ensures src <= fs <= fe && fs - src == LastRun(a[src..fe], Blank)
  {
    ghost var line := a[src..fe];
    fs := fe;
    while fs > src && a[fs - 1] != SPACE && a[fs - 1] != TAB
      invariant src <= fs <= fe && forall i :: fs - src <= i < |line| ==> !Blank(line[i])
    {
      fs := fs - 1;
    }
    LastRunIs(line, Blank, fs - src);
  }

  lemma SliceOfSlice(a: seq<byte>, src: nat, fs: nat, fe: nat, end: nat)
    requires src <= fs <= fe <= end <= |a|
    ensures a[src..end][..fe - src] == a[src..fe] && a[src..fe][fs - src..] == a[fs..fe]
  {
  }

  lemma LastFieldIs(line: seq<byte>, trimmed: seq<byte>, name: seq<byte>)
    requires trimmed == line[..Trim(line, TrimmedByC)] && name == trimmed[LastRun(trimmed, Blank)..]
    ensures name == CField(Last, line)
  {
  }

  method ExtractName(a: array<byte>, src: nat, end: nat, field: Field, ifname: array<byte>)
    requires src <= end <= a.Length && ifname.Length == IFNAMSIZ && a != ifname
    modifies ifname
    ensures CString(ifname[..]) == CString(Short(CField(field, a[src..end])))
  {
    ghost var name := CField(field, a[src..end]);
    var fs, fe;
    if field.First? {
      fs := src;
      fe := EndOfFirst(a, src, end);
    } else {
      fe := EndOfLast(a, src, end);
      fs := StartOfLast(a, src, fe);
      SliceOfSlice(a[..], src, fs, fe, end);
      LastFieldIs(a[src..end], a[src..fe], a[fs..fe]);
    }
    assert a[fs..fe] == name;
    CopyName(a, fs, fe, ifname);
  }

  method Hidden(a: array<byte>, src: nat, end: nat, field: Field, vpn: seq<byte> -> bool, ifname: array<byte>) returns (yes: bool)
    requires src <= end <= a.Length && ifname.Length == IFNAMSIZ && a != ifname
    modifies ifname
    ensures yes == CHides(field, vpn, a[src..end])
  {
    ExtractName(a, src, end, field, ifname);
    var name := CString(ifname[..]);
    yes := name != [] && vpn(name);
  }

  /** cut and drop stand for the lines and the judgement. */
  ghost predicate StandFor(cut: Cut, drop: seq<byte> -> bool, field: Field, vpn: seq<byte> -> bool) {
    && (forall s {:trigger LineCut(s)} :: cut(s) == LineCut(s))
    && (forall s {:trigger CHides(field, vpn, s)} :: drop(s) == CHides(field, vpn, s))
  }

  /** The length of the line at src, and whether it is hidden. */
  method NextSeqLine(a: array<byte>, src: nat, count: nat, field: Field, vpn: seq<byte> -> bool, ifname: array<byte>, ghost cut: Cut, ghost drop: seq<byte> -> bool)
    returns (n: nat, hidden: bool)
    requires src < count <= a.Length && ifname.Length == IFNAMSIZ && a != ifname && StandFor(cut, drop, field, vpn)
    modifies ifname
    ensures 0 < n <= count - src && n == cut(a[src..count]) && hidden == drop(a[src..src + n]) && a[..] == old(a[..])
  {
    var end := FindLineEnd(a, src, count);
    n := end - src;
    hidden := Hidden(a, src, end, field, vpn, ifname);
    assert drop(a[src..end]) == CHides(field, vpn, a[src..end]);
  }

  method SeqTurn(a: array<byte>, start: nat, count: nat, src: nat, dst: nat, field: Field, vpn: seq<byte> -> bool, ifname: array<byte>,
                 ghost cut: Cut, ghost drop: seq<byte> -> bool, ghost was: seq<byte>) returns (src': nat, dst': nat)
    requires src < count <= a.Length && ifname.Length == IFNAMSIZ && a != ifname && StandFor(cut, drop, field, vpn)
    requires Halfway(cut, drop, was, a[..], start, count, src, dst)
    modifies a, ifname
    ensures Halfway(cut, drop, was, a[..], start, count, src', dst') && src < src'
  {
    var n, hidden := NextSeqLine(a, src, count, field, vpn, ifname, cut, drop);
    dst' := Settle(a, cut, drop, was, start, count, src, dst, n, hidden);
    src' := src + n;
  }

  method SeqLoop(a: array<byte>, start: nat, count: nat, field: Field, vpn: seq<byte> -> bool, ghost cut: Cut, ghost drop: seq<byte> -> bool) returns (len: nat)
    requires start <= count <= a.Length && StandFor(cut, drop, field, vpn)
    modifies a
    ensures Halfway(cut, drop, old(a[..]), a[..], start, count, count, len)
  {
    ghost var was := a[..];
    var ifname := new byte[IFNAMSIZ];
    var src := start;
    len := start;
    HalfwayStart(cut, drop, was, start, count);
    while src < count
      invariant Halfway(cut, drop, was, a[..], start, count, src, len) && fresh(ifname)
    {
      src, len := SeqTurn(a, start, count, src, len, field, vpn, ifname, cut, drop, was);
    }
  }

  /** vpnhide_compact_seq_lines: only a[start..count] is filtered; nothing outside it is
      touched. */
  method CompactSeqLines(a: array<byte>, start: nat, count: nat, field: Field, vpn: seq<byte> -> bool) returns (len: nat)
    requires count <= a.Length
    modifies a
    ensures count <= start ==> len == count && a[..] == old(a[..])
    ensures start < count ==> start <= len <= count && a[start..len] == Filter(LineCut, CDrops(field, vpn), old(a[start..count]))
    ensures forall i :: 0 <= i < a.Length && (i < start || len <= i) ==> a[i] == old(a[i])
  {
    if count <= start {
      return count;
    }
    ghost var was, drop := a[..], CDrops(field, vpn);
    len := SeqLoop(a, start, count, field, vpn, LineCut, drop);
    HalfwayEnd(LineCut, drop, was, a[..], start, count, len);
    assert a[..][start..len] == a[start..len] && was[start..count] == old(a[start..count]);
  }

  // ---------------------------------------------------------------------------
  // Comparison
  // ---------------------------------------------------------------------------

  /** Filtering twice changes nothing more, in either filter. */
  lemma LineFiltersIdempotent(field: Field, vpn: seq<byte> -> bool, s: seq<byte>)
    ensures Filter(LineCut, RustDrops(field, vpn), Filter(LineCut, RustDrops(field, vpn), s)) == Filter(LineCut, RustDrops(field, vpn), s)
    ensures Filter(LineCut, CDrops(field, vpn), Filter(LineCut, CDrops(field, vpn), s)) == Filter(LineCut, CDrops(field, vpn), s)
  {
    LinesAreFramed();
    FilterTwice(LineCut, RustDrops(field, vpn), s);
    FilterTwice(LineCut, CDrops(field, vpn), s);
  }

  /** The two treat a line alike, whatever names a VPN (short of the empty one), exactly when
      they extract the same C string from it. */
  lemma AlikeExactlyOnSameName(field: Field, line: seq<byte>)
    ensures (forall vpn: seq<byte> -> bool :: !vpn([]) ==> RustDrops(field, vpn)(line) == CDrops(field, vpn)(line)) <==>
            CString(RustField(field, line)) == CString(Short(CField(field, line)))
  {
    var r, c := CString(RustField(field, line)), CString(Short(CField(field, line)));
    if r != c {
      var vpn: seq<byte> -> bool := n => n != [] && n == (if r != [] then r else c);
      assert RustDrops(field, vpn)(line) != CDrops(field, vpn)(line);
    }
  }

  predicate NoCr(s: seq<byte>) { forall i :: 0 <= i < |s| ==> s[i] != CR }

  lemma {:induction false} TrimAlike(s: seq<byte>)
    requires NoCr(s)
    ensures Trim(s, TrimmedByRust) == Trim(s, TrimmedByC)
  {
    if s != [] && TrimmedByC(s[|s| - 1]) {
      TrimAlike(s[..|s| - 1]);
    }
  }

  lemma {:induction false} RecordsWithin(s: seq<byte>, r: seq<byte>)
    requires NoCr(s) && r in Records(LineCut, s)
    ensures NoCr(r)
    decreases |s|
  {
    if r != s[..LineCut(s)] {
      RecordsWithin(s[LineCut(s)..], r);
    }
  }

  /** The two filters give the same buffer when it has no CR and no name field is longer than
      an interface name can be. */
  lemma FiltersAgree(field: Field, vpn: seq<byte> -> bool, s: seq<byte>)
    requires NoCr(s) && !vpn([]) && forall r :: r in Records(LineCut, s) ==> |RustField(field, r)| < IFNAMSIZ
    ensures Filter(LineCut, RustDrops(field, vpn), s) == Filter(LineCut, CDrops(field, vpn), s)
  {
    forall r | r in Records(LineCut, s)
      ensures RustDrops(field, vpn)(r) == CDrops(field, vpn)(r)
    {
      RecordsWithin(s, r);
      TrimAlike(r);
      AlikeExactlyOnSameName(field, r);
    }
    SameFilter(LineCut, RustDrops(field, vpn), CDrops(field, vpn), s);
  }

  /** Without these limits they differ: a CR belongs to the name for one and not the other. */
  lemma CrTellsThemApart()
    ensures CString(RustField(Last, [97, CR])) != CString(Short(CField(Last, [97, CR])))
  {
    var line: seq<byte> := [97, CR];
    assert line[..1] == [97] && line[..2] == line;
    assert Trim(line, TrimmedByRust) == 2 && Trim(line, TrimmedByC) == 1;
    assert LastRun(line, Blank) == 0 && LastRun(line[..1], Blank) == 0;
    assert Before(line, Nul) == 2 && Before(line[..1], Nul) == 1;
    assert RustField(Last, line) == line && CField(Last, line) == [97] && Short([97]) == [97];
  }

  /** A 16-byte name without NUL reaches one filter whole and the other shortened. */
  lemma LongNamesTellThemApart(name: seq<byte>)
    requires |name| >= IFNAMSIZ && forall i :: 0 <= i < |name| ==> name[i] != 0 && !EndsFirst(name[i])
    ensures CString(RustField(First, name)) != CString(Short(CField(First, name)))
  {
    assert Before(name, EndsFirst) == |name| && Before(name, Nul) == |name|;
    assert |CString(Short(name))| <= IFNAMSIZ - 1;
  }
}
