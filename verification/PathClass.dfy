/** Which paths reveal an interface: the byte scan for `/net/`, its exact meaning on the
    components of a normalised path, and where it misses one. */
module PathClass {
  import opened Options
  import opened Paths

  datatype PathKind = Other | InterfaceListing | HiddenInterface

  const NET: string := "/net/"

  // ---------------------------------------------------------------------------
  // The scan
  // ---------------------------------------------------------------------------

  predicate NetAt(s: string, p: nat) { p + 5 <= |s| && s[p..p + 5] == NET }

  /** Position of the first `/net/`. */
  function FindNet(s: string): (r: Option<nat>)
    ensures r.Some? ==> NetAt(s, r.value) && forall p :: 0 <= p < r.value ==> !NetAt(s, p)
    ensures r.None? ==> forall p :: 0 <= p ==> !NetAt(s, p)
  {
    if |s| < 5 then None
    else if NetAt(s, 0) then Some(0)
    else
      var r := FindNet(s[1..]);
      FindLater(s);
      if r.Some? then Some(r.value + 1) else None
  }

  lemma FindLater(s: string)
    requires s != ""
    ensures forall p :: 0 < p ==> NetAt(s, p) == NetAt(s[1..], p - 1)
  {
    forall p | 0 < p
      ensures NetAt(s, p) == NetAt(s[1..], p - 1)
    {
      assert p + 5 <= |s| ==> s[1..][p - 1..p + 4] == s[p..p + 5];
    }
  }

  /** After each `/net/`, does a component that names a VPN follow? The slash after `net` is
      used up by the match. */
  predicate Scan(s: string, vpn: string -> bool)
    decreases |s|, 0
  {
    FindNet(s).Some? && ScanAfter(s[FindNet(s).value + 5..], vpn)
  }

  predicate ScanAfter(tail: string, vpn: string -> bool)
    decreases |tail|, 1
  {
    (Word(tail) != 0 && vpn(tail[..Word(tail)])) || Scan(tail, vpn)
  }

  const PREFIXES: seq<string> :=
    ["/proc/sys/net/ipv4/conf/", "/proc/sys/net/ipv4/neigh/", "/proc/sys/net/ipv6/conf/", "/proc/sys/net/ipv6/neigh/"]

  const LISTINGS: seq<string> :=
    ["/proc/sys/net/ipv4/conf", "/proc/sys/net/ipv4/neigh", "/proc/sys/net/ipv6/conf", "/proc/sys/net/ipv6/neigh"]

  /** The component after the prefix names a VPN. */
  predicate HiddenBelow(prefix: string, path: string, vpn: string -> bool) {
    prefix <= path && var tail := path[|prefix|..]; Word(tail) != 0 && vpn(tail[..Word(tail)])
  }

  predicate ProcHidden(path: string, vpn: string -> bool) { exists i :: 0 <= i < |PREFIXES| && HiddenBelow(PREFIXES[i], path, vpn) }

  predicate EndsWith(s: string, t: string) { |t| <= |s| && s[|s| - |t|..] == t }

  function Classify(path: string, vpn: string -> bool): PathKind {
    if ProcHidden(path, vpn) then HiddenInterface
    else if path in LISTINGS then InterfaceListing
    else if !("/sys/" <= path) then Other
    else if Scan(path, vpn) then HiddenInterface
    else if path == "/sys/net" || EndsWith(path, "/net") then InterfaceListing
    else Other
  }

  /** The scan's loop: the cursor only moves forward. */
  method ScanSys(path: string, vpn: string -> bool) returns (hidden: bool)
    ensures hidden == Scan(path, vpn)
  {
    var cursor: nat := 0;
    assert path[0..] == path;
    while cursor < |path|
      invariant cursor <= |path| && Scan(path[cursor..], vpn) == Scan(path, vpn)
    {
      var r := FindNet(path[cursor..]);
      if r.None? {
        return false;
      }
      var relative := cursor + r.value + 5;
      var tail := path[relative..];
      assert path[cursor..][r.value + 5..] == tail;
      var end := Word(tail);
      if end != 0 && vpn(tail[..end]) {
        return true;
      }
      cursor := relative;
    }
    return false;
  }

  /** proc_hidden. */
  method ProcHides(path: string, vpn: string -> bool) returns (hidden: bool)
    ensures hidden == ProcHidden(path, vpn)
  {
    for i := 0 to |PREFIXES|
      invariant forall j :: 0 <= j < i ==> !HiddenBelow(PREFIXES[j], path, vpn)
    {
      if PREFIXES[i] <= path {
        var tail := path[|PREFIXES[i]|..];
        var end := Word(tail);
        if end != 0 && vpn(tail[..end]) {
          assert HiddenBelow(PREFIXES[i], path, vpn);
          return true;
        }
      }
    }
    return false;
  }

  /** classify_path. */
  method ClassifyPath(path: string, vpn: string -> bool) returns (kind: PathKind)
    ensures kind == Classify(path, vpn)
  {
    var hidden := ProcHides(path, vpn);
    if hidden {
      return HiddenInterface;
    }
    if path in LISTINGS {
      return InterfaceListing;
    }
    if !("/sys/" <= path) {
      return Other;
    }
    hidden := ScanSys(path, vpn);
    if hidden {
      return HiddenInterface;
    }
    return if path == "/sys/net" || EndsWith(path, "/net") then InterfaceListing else Other;
  }

  // ---------------------------------------------------------------------------
  // Components
  // ---------------------------------------------------------------------------

  /** Component i is a `net` that the scan looks at: the one before it is not. In a run of
      adjacent `net` components these are the first, the third, and so on. */
  predicate Examined(stack: seq<string>, i: nat)
    requires i < |stack|
  {
    stack[i] == "net" && !(i > 0 && Examined(stack, i - 1))
  }

  /** Some examined `net` is directly followed by a VPN name. */
  ghost predicate ExaminedFirst(stack: seq<string>, vpn: string -> bool) {
    exists i: nat :: Shows(stack, vpn, i)
  }

  predicate Shows(stack: seq<string>, vpn: string -> bool, i: nat) {
    i + 1 < |stack| && Examined(stack, i) && vpn(stack[i + 1])
  }

  /** Some `net` is directly followed by a VPN name. */
  ghost predicate NetThenVpn(stack: seq<string>, vpn: string -> bool) {
    exists i :: 0 <= i < |stack| - 1 && stack[i] == "net" && vpn(stack[i + 1])
  }

  /** The scan on components. */
  predicate Greedy(stack: seq<string>, vpn: string -> bool)
    decreases |stack|
  {
    |stack| >= 2 && if stack[0] == "net" then vpn(stack[1]) || Greedy(stack[2..], vpn) else Greedy(stack[1..], vpn)
  }

  /** Being examined depends only on what follows a component that is not. */
  lemma {:induction false} ExaminedShift(stack: seq<string>, k: nat, i: nat)
    requires k + i < |stack| && (k > 0 ==> !Examined(stack, k - 1))
    ensures Examined(stack[k..], i) == Examined(stack, k + i)
  {
    if i > 0 {
      ExaminedShift(stack, k, i - 1);
    }
  }

  lemma ExaminedRest(stack: seq<string>, k: nat, vpn: string -> bool)
    requires 0 < k <= |stack| && !Examined(stack, k - 1)
    ensures ExaminedFirst(stack[k..], vpn) <==> exists i: nat :: k <= i && Shows(stack, vpn, i)
  {
    var rest := stack[k..];
    if ExaminedFirst(rest, vpn) {
      var i: nat :| Shows(rest, vpn, i);
      ExaminedShift(stack, k, i);
      assert Shows(stack, vpn, k + i);
    }
    if i: nat :| k <= i && Shows(stack, vpn, i) {
      ExaminedShift(stack, k, i - k);
      assert Shows(rest, vpn, i - k);
    }
  }

  lemma NotFirst(stack: seq<string>, k: nat, vpn: string -> bool)
    requires k == if stack != [] && stack[0] == "net" then 2 else 1
    requires |stack| >= 2 && (k == 2 ==> !vpn(stack[1]))
    ensures ExaminedFirst(stack, vpn) <==> exists i: nat :: k <= i && Shows(stack, vpn, i)
  {
    if i: nat :| Shows(stack, vpn, i) {
      assert k == 2 ==> Examined(stack, 0) && !Examined(stack, 1);
      assert k <= i;
    }
  }

  lemma {:induction false} GreedyIsExamined(stack: seq<string>, vpn: string -> bool)
    ensures Greedy(stack, vpn) <==> ExaminedFirst(stack, vpn)
    decreases |stack|
  {
    if |stack| >= 2 {
      var k := if stack[0] == "net" then 2 else 1;
      assert Examined(stack, 0) <==> stack[0] == "net";
      assert k == 2 ==> !Examined(stack, 1);
      ExaminedRest(stack, k, vpn);
      GreedyIsExamined(stack[k..], vpn);
      if k == 2 && vpn(stack[1]) {
        assert Shows(stack, vpn, 0);
      } else {
        NotFirst(stack, k, vpn);
      }
    }
  }

  // ---------------------------------------------------------------------------
  // From bytes to components
  // ---------------------------------------------------------------------------

  lemma {:induction false} JoinFront(c: string, rest: seq<string>)
    ensures Joined([c] + rest) == "/" + c + Joined(rest)
  {
    var all := [c] + rest;
    if rest == [] {
      assert all[..0] == [] && Joined([]) == "" && "" + "/" + c == "/" + c;
    } else {
      assert all[..|all| - 1] == [c] + rest[..|rest| - 1];
      JoinFront(c, rest[..|rest| - 1]);
    }
  }

  /** r is what a search finds in s: the first position, or none. */
  ghost predicate First(s: string, r: Option<nat>) {
    if r.Some? then NetAt(s, r.value) && forall p :: 0 <= p < r.value ==> !NetAt(s, p) else forall p :: 0 <= p ==> !NetAt(s, p)
  }

  lemma OneFirst(s: string, r: Option<nat>, q: Option<nat>)
    requires First(s, r) && First(s, q)
    ensures r == q
  {
  }

  lemma NetShift(s: string, k: nat, p: nat)
    requires k <= |s|
    ensures NetAt(s[k..], p) == NetAt(s, p + k)
  {
    assert p + k + 5 <= |s| ==> s[k..][p..p + 5] == s[p + k..p + k + 5];
  }

  lemma FoundShift(s: string, k: nat, n: nat)
    requires k <= n && k <= |s| && First(s, Some(n))
    ensures First(s[k..], Some(n - k))
  {
    NetShift(s, k, n - k);
    forall p | 0 <= p < n - k
      ensures !NetAt(s[k..], p)
    {
      NetShift(s, k, p);
    }
  }

  lemma AbsentShift(s: string, k: nat)
    requires k <= |s| && First(s, None)
    ensures First(s[k..], None)
  {
    forall p | 0 <= p
      ensures !NetAt(s[k..], p)
    {
      NetShift(s, k, p);
    }
  }

  lemma FindSkip(s: string, k: nat)
    requires k <= |s| && forall p :: 0 <= p < k ==> !NetAt(s, p)
    ensures FindNet(s).Some? ==> FindNet(s).value >= k && FindNet(s[k..]) == Some(FindNet(s).value - k)
    ensures FindNet(s).None? ==> FindNet(s[k..]).None?
  {
    var r := FindNet(s);
    if r.Some? {
      FoundShift(s, k, r.value);
      OneFirst(s[k..], Some(r.value - k), FindNet(s[k..]));
    } else {
      AbsentShift(s, k);
      OneFirst(s[k..], None, FindNet(s[k..]));
    }
  }

  lemma SameAfter(s: string, t: string, vpn: string -> bool)
    requires FindNet(s).Some? <==> FindNet(t).Some?
    requires FindNet(s).Some? ==> s[FindNet(s).value + 5..] == t[FindNet(t).value + 5..]
    ensures Scan(s, vpn) == Scan(t, vpn)
  {
  }

  /** Characters before which no `/net/` starts can be skipped. */
  lemma ScanSkip(s: string, k: nat, vpn: string -> bool)
    requires k <= |s| && forall p :: 0 <= p < k ==> !NetAt(s, p)
    ensures Scan(s, vpn) == Scan(s[k..], vpn)
  {
    FindSkip(s, k);
    var r := FindNet(s);
    if r.Some? {
      SliceTwice(s, k, r.value + 5);
    }
    SameAfter(s, s[k..], vpn);
  }

  lemma SliceTwice(s: string, k: nat, n: nat)
    requires k <= n <= |s|
    ensures s[k..][n - k..] == s[n..]
  {
  }

  lemma NetChars(s: string, p: nat)
    ensures NetAt(s, p) <==> p + 5 <= |s| && s[p] == '/' && s[p + 1] == 'n' && s[p + 2] == 'e' && s[p + 3] == 't' && s[p + 4] == '/'
  {
    if p + 5 <= |s| {
      var w := s[p..p + 5];
      assert w[0] == s[p] && w[1] == s[p + 1] && w[2] == s[p + 2] && w[3] == s[p + 3] && w[4] == s[p + 4];
    }
  }

  /** s is a component after its slash at n, with what follows it. */
  ghost predicate ComponentAt(s: string, n: nat, c: string, tail: string) {
    && |s| == n + 1 + |c| + |tail| && s[n] == '/' && s[n + 1..] == c + tail
    && Plain(c) && (tail == "" || tail[0] == '/') && forall i :: 0 <= i < n ==> s[i] != '/'
  }

  /** At a component, `/net/` is found exactly when it is `net` and not the last one. */
  lemma NetAtComponent(s: string, n: nat, c: string, tail: string)
    requires ComponentAt(s, n, c, tail)
    ensures NetAt(s, n) <==> c == "net" && tail != ""
  {
    NetChars(s, n);
    assert forall i :: 0 <= i < |c| ==> s[n + 1..][i] == c[i];
    assert tail != "" ==> s[n + 1..][|c|] == '/';
    if NetAt(s, n) {
      assert s[n + 1..][3] == '/' && |c| == 3;
    }
  }

  lemma NoNetBefore(s: string, n: nat)
    requires n <= |s| && forall i :: 0 <= i < n ==> s[i] != '/'
    ensures forall p :: 0 <= p < n ==> !NetAt(s, p)
  {
    forall p | 0 <= p < n
      ensures !NetAt(s, p)
    {
      NetChars(s, p);
    }
  }

  lemma ScanPast(s: string, n: nat, c: string, tail: string, vpn: string -> bool)
    requires ComponentAt(s, n, c, tail) && !(c == "net" && tail != "")
    ensures Scan(s, vpn) == Scan(c + tail, vpn)
  {
    NoNetBefore(s, n);
    NetAtComponent(s, n, c, tail);
    ScanSkip(s, n + 1, vpn);
  }

  lemma ScanNet(s: string, n: nat, next: string, tail: string, vpn: string -> bool)
    requires ComponentAt(s, n, "net", "/" + next + tail) && Plain(next) && (tail == "" || tail[0] == '/')
    ensures Scan(s, vpn) == (vpn(next) || Scan(next + tail, vpn))
  {
    NoNetBefore(s, n);
    NetAtComponent(s, n, "net", "/" + next + tail);
    assert FindNet(s) == Some(n);
    var t := s[n + 5..];
    assert t == s[n + 1..][4..] == next + tail;
    WordIs(t, |next|);
    assert t[..|next|] == next;
  }

  lemma NothingInWord(word: string, vpn: string -> bool)
    requires forall i :: 0 <= i < |word| ==> word[i] != '/'
    ensures !Scan(word, vpn)
  {
    NoNetBefore(word, |word|);
  }

  lemma JoinedShape(rest: seq<string>)
    ensures Joined(rest) == "" || Joined(rest)[0] == '/'
    ensures rest != [] ==> Joined(rest) == "/" + rest[0] + Joined(rest[1..])
  {
    if rest != [] {
      StartsWithSlash(rest);
      JoinFront(rest[0], rest[1..]);
      assert [rest[0]] + rest[1..] == rest;
    }
  }

  lemma Placed(word: string, c: string, tail: string)
    requires Plain(c) && (tail == "" || tail[0] == '/') && forall i :: 0 <= i < |word| ==> word[i] != '/'
    ensures ComponentAt(word + ("/" + c + tail), |word|, c, tail)
  {
    var s := word + ("/" + c + tail);
    assert s[|word| + 1..] == c + tail;
  }

  /** The byte scan is the scan on components. */
  lemma {:induction false} ScanIsGreedy(word: string, rest: seq<string>, vpn: string -> bool)
    requires AllPlain(rest) && forall i :: 0 <= i < |word| ==> word[i] != '/'
    ensures Scan(word + Joined(rest), vpn) == Greedy(rest, vpn)
    decreases |rest|
  {
    JoinedShape(rest);
    if rest == [] {
      assert word + Joined(rest) == word;
      NothingInWord(word, vpn);
    } else {
      var c, tail := rest[0], Joined(rest[1..]);
      JoinedShape(rest[1..]);
      Placed(word, c, tail);
      assert word + ("/" + c + tail) == word + Joined(rest);
      if c == "net" && |rest| > 1 {
        JoinedShape(rest[1..][1..]);
        assert rest[1..][1..] == rest[2..];
        ScanNet(word + Joined(rest), |word|, rest[1], Joined(rest[2..]), vpn);
        ScanIsGreedy(rest[1], rest[2..], vpn);
      } else {
        ScanPast(word + Joined(rest), |word|, c, tail, vpn);
        ScanIsGreedy(c, rest[1..], vpn);
      }
    }
  }

  // ---------------------------------------------------------------------------
  // classify_path on normalised /sys/ paths
  // ---------------------------------------------------------------------------

  lemma NotProc(path: string, vpn: string -> bool)
    requires "/sys/" <= path
    ensures !ProcHidden(path, vpn) && path !in LISTINGS
  {
    assert path[1] == "/sys/"[1] == 's';
    forall i | 0 <= i < |PREFIXES|
      ensures !(PREFIXES[i] <= path)
    {
      assert PREFIXES[i][1] == 'p';
    }
  }

  lemma SysPath(stack: seq<string>)
    requires AllPlain(stack) && |stack| >= 2 && stack[0] == "sys"
    ensures "/sys/" <= Text(stack)
  {
    JoinedShape(stack);
    JoinedShape(stack[1..]);
    StartsWithSlash(stack[1..]);
    assert Text(stack) == "/" + "sys" + Joined(stack[1..]);
    assert Text(stack)[..5] == "/sys/";
  }

  /** A normalised path below /sys is hidden exactly when an examined `net` component, one
      after an even number of adjacent ones, is directly followed by a VPN name. */
  lemma HiddenExactly(stack: seq<string>, vpn: string -> bool)
    requires AllPlain(stack) && |stack| >= 2 && stack[0] == "sys"
    ensures Classify(Text(stack), vpn) == HiddenInterface <==> ExaminedFirst(stack, vpn)
  {
    SysPath(stack);
    NotProc(Text(stack), vpn);
    ScanIsGreedy("", stack, vpn);
    assert "" + Joined(stack) == Text(stack);
    GreedyIsExamined(stack, vpn);
  }

  predicate NoTwoNets(stack: seq<string>) {
    forall i :: 0 <= i < |stack| - 1 ==> !(stack[i] == "net" && stack[i + 1] == "net")
  }

  /** Without two adjacent `net` components that is every `net`. */
  lemma HiddenWhenNoTwoNets(stack: seq<string>, vpn: string -> bool)
    requires AllPlain(stack) && |stack| >= 2 && stack[0] == "sys" && NoTwoNets(stack)
    ensures Classify(Text(stack), vpn) == HiddenInterface <==> NetThenVpn(stack, vpn)
  {
    HiddenExactly(stack, vpn);
    forall i | 0 <= i < |stack|
      ensures Examined(stack, i) <==> stack[i] == "net"
    {
      assert i > 0 ==> !(stack[i - 1] == "net" && stack[i - 1 + 1] == "net");
    }
    if i :| 0 <= i < |stack| - 1 && stack[i] == "net" && vpn(stack[i + 1]) {
      assert Shows(stack, vpn, i);
    }
  }

  /** With two adjacent ones an interface below the second is missed. */
  lemma MissedBelowTwoNets(name: string, vpn: string -> bool)
    requires Plain(name) && vpn(name) && !vpn("net")
    ensures var stack := ["sys", "net", "net", name];
            AllPlain(stack) && NetThenVpn(stack, vpn) && Classify(Text(stack), vpn) != HiddenInterface
  {
    var stack := ["sys", "net", "net", name];
    HiddenExactly(stack, vpn);
    assert stack[2] == "net" && vpn(stack[2 + 1]);
    assert !Examined(stack, 0) && Examined(stack, 1) && !Examined(stack, 2);
  }
}
