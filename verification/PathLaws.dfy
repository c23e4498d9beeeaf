/** Where a path leads, one component at a time, and what the classifier makes of the place:
    the laws that fix the normal form of every absolute path, and the kind of every normalised
    one by its components. */
module PathLaws {
  import opened Options
  import opened Paths
  import opened PathClass

  predicate Absolute(p: string) { p != "" && p[0] == '/' }

  /** The stack an absolute path leads to. */
  function StackOf(p: string): Option<seq<string>>
    requires Absolute(p)
  {
    Resolve([], Components(p[1..]))
  }

  // ---------------------------------------------------------------------------
  // Longer paths
  // ---------------------------------------------------------------------------

  lemma WordBefore(p: string, x: string)
    ensures Word(p + ("/" + x)) == Word(p)
  {
    var s := p + ("/" + x);
    assert s[|p|] == '/' && forall i :: 0 <= i < |p| ==> s[i] == p[i];
    WordIs(s, Word(p));
  }

  lemma {:induction false} ComponentsSplit(p: string, x: string)
    ensures Components(p + ("/" + x)) == Components(p) + Components(x)
    decreases |p|
  {
    var s := p + ("/" + x);
    if p == "" {
      assert s == "/" + x && s[1..] == x;
    } else if p[0] == '/' {
      assert s[1..] == p[1..] + ("/" + x);
      ComponentsSplit(p[1..], x);
    } else {
      var w := Word(p);
      WordBefore(p, x);
      assert s[..w] == p[..w] && s[w..] == p[w..] + ("/" + x);
      ComponentsSplit(p[w..], x);
    }
  }

  lemma ResolveCons(stack: seq<string>, c: string, rest: seq<string>)
    ensures Resolve(stack, [c] + rest) ==
            if c == "." then Resolve(stack, rest) else if c == ".." then Resolve(Pop(stack), rest)
            else if Fits(stack + [c]) then Resolve(stack + [c], rest) else None
  {
    assert ([c] + rest)[1..] == rest;
  }

  lemma {:induction false} ResolveSplit(stack: seq<string>, a: seq<string>, b: seq<string>)
    ensures Resolve(stack, a + b) == if Resolve(stack, a).Some? then Resolve(Resolve(stack, a).value, b) else None
    decreases |a|
  {
    if a == [] {
      assert a + b == b;
    } else {
      var c, rest := a[0], a[1..];
      assert a == [c] + rest && a + b == [c] + (rest + b);
      ResolveCons(stack, c, rest);
      ResolveCons(stack, c, rest + b);
      ResolveSplit(if c == "." then stack else if c == ".." then Pop(stack) else stack + [c], rest, b);
    }
  }

  /** The rest of a path starts where its front leads. */
  lemma Extend(p: string, x: string, q: string)
    requires Absolute(p) && q == p + ("/" + x)
    ensures Absolute(q) && StackOf(q) == if StackOf(p).Some? then Resolve(StackOf(p).value, Components(x)) else None
  {
    assert q[1..] == p[1..] + ("/" + x);
    ComponentsSplit(p[1..], x);
    ResolveSplit([], Components(p[1..]), Components(x));
  }

  lemma OneComponent(c: string)
    requires c != "" && forall i :: 0 <= i < |c| ==> c[i] != '/'
    ensures Components(c) == [c]
  {
    WordIs(c, |c|);
    assert c[..|c|] == c && c[|c|..] == "";
  }

  lemma ResolveOne(stack: seq<string>, c: string)
    ensures Resolve(stack, [c]) == if c == "." then Some(stack) else if c == ".." then Some(Pop(stack)) else if Fits(stack + [c]) then Some(stack + [c]) else None
  {
    assert [c] + [] == [c];
    ResolveCons(stack, c, []);
  }

  /** A stack reached is plain and fits, and its text tells it. */
  lemma Reached(p: string)
    requires Absolute(p) && StackOf(p).Some?
    ensures var stack := StackOf(p).value;
            AllPlain(stack) && Fits(stack) && Normal(p) == Some(Text(stack)) && Components(Text(stack)[1..]) == stack && Absolute(Text(stack))
  {
    ComponentsSlashFree(p[1..]);
    ResolvePlain([], Components(p[1..]));
    ComponentsOfText(StackOf(p).value);
  }

  // ---------------------------------------------------------------------------
  // The laws
  // ---------------------------------------------------------------------------

  /** Only absolute paths have a normal form; the root is its own. */
  lemma Start(p: string)
    ensures Normal("/") == Some("/") && (p == "" || p[0] != '/' ==> Normal(p) == None)
  {
    assert "/"[1..] == "";
    assert Components("") == [];
  }

  /** A slash or a `.` more leads nowhere else. */
  lemma Stay(p: string)
    requires Absolute(p)
    ensures Normal(p + ("/" + "")) == Normal(p) && Normal(p + ("/" + ".")) == Normal(p)
  {
    Extend(p, "", p + ("/" + ""));
    Extend(p, ".", p + ("/" + "."));
    assert Components("") == [];
    OneComponent(".");
    if StackOf(p).Some? {
      ResolveOne(StackOf(p).value, ".");
    }
  }

  /** A plain component leads one level down, if the place is within 2048 characters and 96
      levels. */
  lemma Down(p: string, c: string, t: string)
    requires Absolute(p) && Plain(c) && Normal(p) == Some(t)
    ensures var below := (if t == "/" then "/" else t + "/") + c;
            Normal(p + ("/" + c)) == if |below| <= 2048 && t != "" && |Components(t[1..])| < 96 then Some(below) else None
  {
    Reached(p);
    var stack := StackOf(p).value;
    Extend(p, c, p + ("/" + c));
    OneComponent(c);
    ResolveOne(stack, c);
    PushText(stack, c);
    if stack != [] {
      LongerThanRoot(stack);
    }
  }

  lemma LongerThanRoot(stack: seq<string>)
    requires AllPlain(stack) && stack != []
    ensures Text(stack) != "/"
  {
    assert |stack[|stack| - 1]| > 0;
  }

  /** Down and up again is back where it was. */
  lemma DownAndUp(p: string, c: string)
    requires Absolute(p) && Plain(c) && Normal(p + ("/" + c)).Some?
    ensures Normal(p + ("/" + c) + ("/" + "..")) == Normal(p)
  {
    var q := p + ("/" + c);
    Extend(p, c, q);
    Extend(q, "..", q + ("/" + ".."));
    OneComponent(c);
    OneComponent("..");
    var stack := StackOf(p).value;
    ResolveOne(stack, c);
    ResolveOne(stack + [c], "..");
    assert Pop(stack + [c]) == stack;
  }

  /** There is nothing above the root. */
  lemma AboveRoot(p: string)
    requires Absolute(p) && Normal(p) == Some("/")
    ensures Normal(p + ("/" + "..")) == Some("/")
  {
    Reached(p);
    var stack := StackOf(p).value;
    if stack != [] {
      LongerThanRoot(stack);
    }
    Extend(p, "..", p + ("/" + ".."));
    OneComponent("..");
    ResolveOne([], "..");
  }

  /** From the same place the same way leads to the same place. */
  lemma SamePlace(p: string, q: string, x: string)
    requires Absolute(p) && Absolute(q) && Normal(p) == Normal(q)
    ensures Normal(p + ("/" + x)) == Normal(q + ("/" + x))
  {
    Extend(p, x, p + ("/" + x));
    Extend(q, x, q + ("/" + x));
    if Normal(p).Some? {
      Reached(p);
      Reached(q);
    }
  }

  // ---------------------------------------------------------------------------
  // Kinds
  // ---------------------------------------------------------------------------

  /** The directory of one protocol's settings, by component. */
  predicate IsSettings(front: seq<string>) {
    && |front| == 5 && front[0] == "proc" && front[1] == "sys" && front[2] == "net"
    && (front[3] == "ipv4" || front[3] == "ipv6") && (front[4] == "conf" || front[4] == "neigh")
  }

  lemma {:induction false} JoinedAppend(a: seq<string>, b: seq<string>)
    ensures Joined(a + b) == Joined(a) + Joined(b)
  {
    if b == [] {
      assert a + b == a;
    } else {
      var n := |b| - 1;
      assert (a + b)[..|a + b| - 1] == a + b[..n] && (a + b)[|a + b| - 1] == b[n];
      JoinedAppend(a, b[..n]);
    }
  }

  lemma WordFirst(c: string, more: string, tail: string)
    requires Plain(c) && (more == "" || more[0] == '/') && tail == c + more
    ensures Word(tail) == |c| && tail[..|c|] == c
  {
    WordIs(tail, |c|);
  }

  lemma AfterSlash(front: string, c: string, more: string, s: string)
    requires s == front + ("/" + c + more)
    ensures front + "/" <= s && s[|front| + 1..] == c + more
  {
  }

  lemma BelowByComponent(front: seq<string>, rest: seq<string>, s: string)
    requires AllPlain(front) && AllPlain(rest) && front != [] && rest != [] && s == Text(front + rest)
    ensures Text(front) + "/" <= s && var tail := s[|Text(front)| + 1..]; tail[..Word(tail)] == rest[0]
  {
    JoinedAppend(front, rest);
    JoinedShape(rest);
    JoinedShape(rest[1..]);
    var more := Joined(rest[1..]);
    AfterSlash(Text(front), rest[0], more, s);
    WordFirst(rest[0], more, s[|Text(front)| + 1..]);
  }

  lemma Grown(front: seq<string>, rest: seq<string>, stack: seq<string>)
    requires stack == front + rest && stack != front
    ensures |stack| > |front| && stack[..|front|] == front
  {
    assert rest == [] ==> stack == front;
  }

  lemma PastSlash(front: string, s: string)
    requires front != "" && front + "/" <= s
    ensures s[1..] == front[1..] + ("/" + s[|front| + 1..])
  {
    assert s == front + "/" + s[|front| + 1..];
  }

  lemma SplitBySlash(f: string, s: string, front: seq<string>, stack: seq<string>)
    requires f != "" && f + "/" <= s && Components(f[1..]) == front && Components(s[1..]) == stack
    ensures stack == front + Components(s[|f| + 1..])
  {
    PastSlash(f, s);
    ComponentsSplit(f[1..], s[|f| + 1..]);
  }

  lemma BelowByText(front: seq<string>, stack: seq<string>)
    requires AllPlain(front) && AllPlain(stack) && Text(front) + "/" <= Text(stack)
    ensures |stack| > |front| && stack[..|front|] == front
  {
    ComponentsOfText(front);
    ComponentsOfText(stack);
    SplitBySlash(Text(front), Text(stack), front, stack);
    Grown(front, Components(Text(stack)[|Text(front)| + 1..]), stack);
  }

  /** Text and components agree on what is below a directory. */
  lemma Below(front: seq<string>, stack: seq<string>)
    requires AllPlain(front) && AllPlain(stack) && front != []
    ensures Text(front) + "/" <= Text(stack) <==> |stack| > |front| && stack[..|front|] == front
    ensures |stack| > |front| && stack[..|front|] == front ==>
              var tail := Text(stack)[|Text(front)| + 1..]; tail[..Word(tail)] == stack[|front|]
  {
    if |stack| > |front| && stack[..|front|] == front {
      assert stack == front + stack[|front|..];
      BelowByComponent(front, stack[|front|..], Text(stack));
    } else if Text(front) + "/" <= Text(stack) {
      BelowByText(front, stack);
    }
  }

  lemma SameText(a: seq<string>, b: seq<string>)
    requires AllPlain(a) && AllPlain(b)
    ensures Text(a) == Text(b) <==> a == b
  {
    ComponentsOfText(a);
    ComponentsOfText(b);
  }

  function Settings(v: string, k: string): seq<string> { ["proc", "sys", "net", v, k] }

  lemma Pushed(stack: seq<string>, t: string, c: string)
    requires AllPlain(stack) && stack != [] && Text(stack) == t
    ensures Text(stack + [c]) == t + "/" + c
  {
    PushText(stack, c);
  }

  lemma ThreeText(a: string, b: string, c: string)
    requires Plain(a) && Plain(b)
    ensures Text([a, b, c]) == "/" + a + "/" + b + "/" + c
  {
    PushText([], a);
    assert [] + [a] == [a];
    Pushed([a], "/" + a, b);
    assert [a] + [b] == [a, b];
    Pushed([a, b], "/" + a + "/" + b, c);
    assert [a, b] + [c] == [a, b, c];
  }

  lemma SettingsText(v: string, k: string, net: string)
    requires Plain(v) && Plain(k) && net == "/" + "proc" + "/" + "sys" + "/" + "net"
    ensures Text(Settings(v, k)) == net + "/" + v + "/" + k
  {
    var front := ["proc", "sys", "net"];
    ThreeText("proc", "sys", "net");
    Pushed(front, net, v);
    Pushed(front + [v], net + "/" + v, k);
    assert front + [v] + [k] == Settings(v, k);
  }

  lemma ListingText(v: string, k: string, dir: string)
    requires Plain(v) && Plain(k) && dir == "/proc/sys/net" + "/" + v + "/" + k
    ensures Text(Settings(v, k)) == dir
  {
    var net := "/" + "proc" + "/" + "sys" + "/" + "net";
    assert net == "/proc/sys/net";
    SettingsText(v, k, net);
  }

  /** The four directories, by component and by text. */
  function SettingsAt(i: nat): seq<string>
    requires i < 4
  {
    Settings(if i < 2 then "ipv4" else "ipv6", if i % 2 == 0 then "conf" else "neigh")
  }

  lemma Conf4()
    ensures Text(Settings("ipv4", "conf")) == LISTINGS[0]
  {
    ListingText("ipv4", "conf", LISTINGS[0]);
  }

  lemma Neigh4()
    ensures Text(Settings("ipv4", "neigh")) == LISTINGS[1]
  {
    ListingText("ipv4", "neigh", LISTINGS[1]);
  }

  lemma Conf6()
    ensures Text(Settings("ipv6", "conf")) == LISTINGS[2]
  {
    ListingText("ipv6", "conf", LISTINGS[2]);
  }

  lemma Neigh6()
    ensures Text(Settings("ipv6", "neigh")) == LISTINGS[3]
  {
    ListingText("ipv6", "neigh", LISTINGS[3]);
  }

  lemma SettingsPlain(i: nat)
    requires i < 4
    ensures AllPlain(SettingsAt(i))
  {
  }

  lemma FourSettings(i: nat)
    requires i < 4
    ensures Text(SettingsAt(i)) == LISTINGS[i] && AllPlain(SettingsAt(i))
  {
    SettingsPlain(i);
    Conf4();
    Neigh4();
    Conf6();
    Neigh6();
  }

  lemma FourPrefixes(i: nat)
    requires i < 4
    ensures PREFIXES[i] == LISTINGS[i] + "/"
  {
  }

  lemma WhichSettings(front: seq<string>)
    ensures IsSettings(front) <==> exists i: nat :: i < 4 && front == SettingsAt(i)
  {
    if IsSettings(front) {
      var i: nat := (if front[3] == "ipv4" then 0 else 2) + if front[4] == "conf" then 0 else 1;
      assert front == SettingsAt(i);
    }
  }

  /** Below one of the four directories, the next component is the interface. */
  predicate ProcShows(stack: seq<string>, vpn: string -> bool) { |stack| > 5 && IsSettings(stack[..5]) && vpn(stack[5]) }

  lemma HiddenBelowFor(prefix: string, front: seq<string>, stack: seq<string>, vpn: string -> bool)
    requires AllPlain(front) && AllPlain(stack) && front != [] && prefix == Text(front) + "/"
    ensures HiddenBelow(prefix, Text(stack), vpn) <==> |stack| > |front| && stack[..|front|] == front && vpn(stack[|front|])
  {
    Below(front, stack);
  }

  lemma HiddenBelowExactly(i: nat, stack: seq<string>, vpn: string -> bool)
    requires i < 4 && AllPlain(stack)
    ensures HiddenBelow(PREFIXES[i], Text(stack), vpn) <==> |stack| > 5 && stack[..5] == SettingsAt(i) && vpn(stack[5])
  {
    FourSettings(i);
    FourPrefixes(i);
    HiddenBelowFor(PREFIXES[i], SettingsAt(i), stack, vpn);
  }

  lemma ProcExactly(stack: seq<string>, vpn: string -> bool)
    requires AllPlain(stack)
    ensures ProcHidden(Text(stack), vpn) <==> ProcShows(stack, vpn)
  {
    forall i: nat | i < 4
      ensures HiddenBelow(PREFIXES[i], Text(stack), vpn) <==> |stack| > 5 && stack[..5] == SettingsAt(i) && vpn(stack[5])
    {
      HiddenBelowExactly(i, stack, vpn);
    }
    if |stack| > 5 {
      WhichSettings(stack[..5]);
    }
  }

  lemma ListingExactly(stack: seq<string>)
    requires AllPlain(stack)
    ensures Text(stack) in LISTINGS <==> IsSettings(stack)
  {
    forall i: nat | i < 4
      ensures Text(stack) == LISTINGS[i] <==> stack == SettingsAt(i)
    {
      FourSettings(i);
      SameText(stack, SettingsAt(i));
    }
    WhichSettings(stack);
  }

  lemma SysExactly(stack: seq<string>)
    requires AllPlain(stack)
    ensures "/sys/" <= Text(stack) <==> |stack| >= 2 && stack[0] == "sys"
  {
    PushText([], "sys");
    assert [] + ["sys"] == ["sys"] && Text(["sys"]) == "/sys" && "/sys" + "/" == "/sys/";
    Below(["sys"], stack);
    if |stack| > 1 {
      assert stack[..1] == [stack[0]];
    }
  }

  lemma LastSlash(front: string, c: string, s: string)
    requires Plain(c) && s == front + "/" + c
    ensures EndsWith(s, "/net") <==> c == "net"
  {
    var n := |s| - |c| - 1;
    assert s[n] == '/' && s[n + 1..] == c && forall i :: n < i < |s| ==> s[i] == c[i - n - 1];
    if EndsWith(s, "/net") {
      var t := s[|s| - 4..];
      assert t[0] == '/' && t[1] == 'n' && t[2] == 'e' && t[3] == 't';
      assert s[|s| - 4] == '/' && s[|s| - 3] == 'n' && s[|s| - 2] == 'e' && s[|s| - 1] == 't';
      assert n == |s| - 4;
      assert c == t[1..];
    }
    assert c == "net" ==> s[n..] == "/net";
  }

  lemma NetLast(stack: seq<string>)
    requires AllPlain(stack) && stack != []
    ensures EndsWith(Text(stack), "/net") <==> stack[|stack| - 1] == "net"
  {
    var n := |stack| - 1;
    LastSlash(Joined(stack[..n]), stack[n], Text(stack));
  }

  /** The kind of every normalised path, by its components. */
  lemma KindExactly(stack: seq<string>, vpn: string -> bool)
    requires AllPlain(stack)
    ensures var sys, kind := |stack| >= 2 && stack[0] == "sys", Classify(Text(stack), vpn);
            && (kind == HiddenInterface <==> ProcShows(stack, vpn) || (sys && ExaminedFirst(stack, vpn)))
            && (kind == InterfaceListing <==> kind != HiddenInterface && (IsSettings(stack) || (sys && stack[|stack| - 1] == "net")))
  {
    ProcExactly(stack, vpn);
    ListingExactly(stack);
    SysExactly(stack);
    if |stack| >= 2 && stack[0] == "sys" {
      HiddenExactly(stack, vpn);
      NetLast(stack);
      SysNet(Text(stack));
    }
  }

  lemma SysNet(path: string)
    ensures path == "/sys/net" ==> EndsWith(path, "/net")
  {
    assert "/sys/net"[4..] == "/net";
  }
}
