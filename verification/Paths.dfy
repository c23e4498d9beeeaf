/** Lexical normalisation of absolute paths in fixed buffers, against the stack of components
    it stands for. */
module Paths {
  import opened Options

  const MAX_PATH: nat := 2048
  const MAX_DEPTH: nat := 96

  /** Length of the run before the first slash. */
  function Word(s: string): (n: nat)
    ensures n <= |s| && (n < |s| ==> s[n] == '/') && forall i :: 0 <= i < n ==> s[i] != '/'
  {
    if s == [] || s[0] == '/' then 0 else 1 + Word(s[1..])
  }

  lemma WordIs(s: string, n: nat)
    requires n <= |s| && (n < |s| ==> s[n] == '/') && forall i :: 0 <= i < n ==> s[i] != '/'
    ensures Word(s) == n
  {
  }

  /** The non-empty components. */
  function Components(s: string): seq<string>
    decreases |s|
  {
    if s == [] then []
    else if s[0] == '/' then Components(s[1..])
    else [s[..Word(s)]] + Components(s[Word(s)..])
  }

  /** What the components mean: `.` is dropped and `..` pops, never above the root. */
  function Meaning(stack: seq<string>, components: seq<string>): seq<string>
    decreases |components|
  {
    if components == [] then stack
    else if components[0] == "." then Meaning(stack, components[1..])
    else if components[0] == ".." then Meaning(Pop(stack), components[1..])
    else Meaning(stack + [components[0]], components[1..])
  }

  function Pop(stack: seq<string>): seq<string> { if stack == [] then [] else stack[..|stack| - 1] }

  /** Each component after its slash. */
  function Joined(stack: seq<string>): string {
    if stack == [] then "" else Joined(stack[..|stack| - 1]) + "/" + stack[|stack| - 1]
  }

  function Text(stack: seq<string>): string { if stack == [] then "/" else Joined(stack) }

  /** A stack that fits the buffers. */
  predicate Fits(stack: seq<string>) { |stack| <= MAX_DEPTH && |Text(stack)| <= MAX_PATH }

  /** The same with the buffers' limits: every stack on the way must fit. */
  function Resolve(stack: seq<string>, components: seq<string>): Option<seq<string>>
    decreases |components|
  {
    if components == [] then Some(stack)
    else if components[0] == "." then Resolve(stack, components[1..])
    else if components[0] == ".." then Resolve(Pop(stack), components[1..])
    else if !Fits(stack + [components[0]]) then None
    else Resolve(stack + [components[0]], components[1..])
  }

  function Normal(path: string): Option<string> {
    if path == [] || path[0] != '/' then None
    else
      var r := Resolve([], Components(path[1..]));
      if r.Some? then Some(Text(r.value)) else None
  }

  /** Within the limits, the result is the meaning. */
  lemma {:induction false} ResolveIsMeaning(stack: seq<string>, components: seq<string>)
    requires Resolve(stack, components).Some?
    ensures Resolve(stack, components).value == Meaning(stack, components)
    decreases |components|
  {
    if components != [] {
      var c, rest := components[0], components[1..];
      ResolveIsMeaning(if c == "." then stack else if c == ".." then Pop(stack) else stack + [c], rest);
    }
  }

  /** Refusal is exactly an oversized stack on the way. */
  lemma FailsExactlyOnLimits(stack: seq<string>, components: seq<string>)
    requires Fits(stack)
    ensures Resolve(stack, components).None? <==> exists n :: 0 < n <= |components| && !Fits(Meaning(stack, components[..n]))
  {
    FailsOnlyOnLimits(stack, components);
    if n :| 0 < n <= |components| && !Fits(Meaning(stack, components[..n])) {
      OversizedFails(stack, components, n);
    }
  }

  lemma {:induction false} OversizedFails(stack: seq<string>, components: seq<string>, n: nat)
    requires Fits(stack) && 0 < n <= |components| && !Fits(Meaning(stack, components[..n]))
    ensures Resolve(stack, components).None?
    decreases |components|
  {
    var c, rest := components[0], components[1..];
    var next := if c == "." then stack else if c == ".." then Pop(stack) else stack + [c];
    assert components[..n][0] == c && components[..n][1..] == rest[..n - 1];
    if c == ".." {
      PopFits(stack);
    }
    if Fits(next) {
      assert rest[..0] == [];
      OversizedFails(next, rest, n - 1);
    }
  }

  lemma {:induction false} FailsOnlyOnLimits(stack: seq<string>, components: seq<string>)
    ensures Resolve(stack, components).None? ==> exists n :: 0 < n <= |components| && !Fits(Meaning(stack, components[..n]))
    decreases |components|
  {
    if components != [] && Resolve(stack, components).None? {
      var c, rest := components[0], components[1..];
      var next := if c == "." then stack else if c == ".." then Pop(stack) else stack + [c];
      assert components[..1] == [c] && [c][1..] == [];
      if c != "." && c != ".." && !Fits(next) {
        assert Meaning(stack, components[..1]) == next;
      } else {
        FailsOnlyOnLimits(next, rest);
        var n :| 0 < n <= |rest| && !Fits(Meaning(next, rest[..n]));
        assert components[..n + 1][1..] == rest[..n];
        assert Meaning(stack, components[..n + 1]) == Meaning(next, rest[..n]);
      }
    }
  }

  // ---------------------------------------------------------------------------
  // Idempotence
  // ---------------------------------------------------------------------------

  predicate Plain(c: string) { c != "" && c != "." && c != ".." && forall i :: 0 <= i < |c| ==> c[i] != '/' }

  predicate AllPlain(stack: seq<string>) { forall i :: 0 <= i < |stack| ==> Plain(stack[i]) }

  lemma {:induction false} ComponentsSlashFree(s: string)
    ensures forall i :: 0 <= i < |Components(s)| ==> Components(s)[i] != "" && Word(Components(s)[i]) == |Components(s)[i]|
    decreases |s|
  {
    if s != [] {
      if s[0] == '/' {
        ComponentsSlashFree(s[1..]);
      } else {
        ComponentsSlashFree(s[Word(s)..]);
        assert Word(s[..Word(s)]) == Word(s);
      }
    }
  }

  lemma {:induction false} ResolvePlain(stack: seq<string>, components: seq<string>)
    requires AllPlain(stack) && Fits(stack) && Resolve(stack, components).Some?
    requires forall i :: 0 <= i < |components| ==> components[i] != "" && Word(components[i]) == |components[i]|
    ensures AllPlain(Resolve(stack, components).value) && Fits(Resolve(stack, components).value)
    decreases |components|
  {
    if components != [] {
      var c, rest := components[0], components[1..];
      if c == ".." {
        PopFits(stack);
      }
      ResolvePlain(if c == "." then stack else if c == ".." then Pop(stack) else stack + [c], rest);
    }
  }

  lemma PopFits(stack: seq<string>)
    requires Fits(stack)
    ensures Fits(Pop(stack))
  {
  }

  lemma ComponentFirst(c: string, tail: string)
    requires Plain(c) && (tail == "" || tail[0] == '/')
    ensures Components("/" + c + tail) == [c] + Components(tail)
  {
    var s := c + tail;
    assert ("/" + c + tail)[1..] == s;
    WordIs(s, |c|);
    assert s[..|c|] == c && s[|c|..] == tail;
  }

  lemma Regroup(front: string, c: string, tail: string)
    ensures front + "/" + c + tail == front + ("/" + c + tail)
  {
  }

  /** Splitting a joined stack gives it back. */
  lemma {:induction false} ComponentsOfJoined(stack: seq<string>, tail: string)
    requires AllPlain(stack) && (tail == "" || tail[0] == '/')
    ensures Components(Joined(stack) + tail) == stack + Components(tail)
  {
    if stack == [] {
      assert Joined(stack) + tail == tail;
    } else {
      var c, front := stack[|stack| - 1], stack[..|stack| - 1];
      var more := "/" + c + tail;
      Regroup(Joined(front), c, tail);
      ComponentsOfJoined(front, more);
      ComponentFirst(c, tail);
      assert stack == front + [c];
    }
  }

  lemma {:induction false} ResolveOwn(stack: seq<string>, rest: seq<string>)
    requires AllPlain(rest) && Fits(stack + rest)
    ensures Resolve(stack, rest) == Some(stack + rest)
    decreases |rest|
  {
    if rest == [] {
      assert stack + rest == stack;
    } else {
      var next := stack + [rest[0]];
      assert next + rest[1..] == stack + rest;
      PrefixFits(next, rest[1..]);
      ResolveOwn(next, rest[1..]);
    }
  }

  lemma {:induction false} PrefixFits(stack: seq<string>, rest: seq<string>)
    requires Fits(stack + rest)
    ensures Fits(stack)
    decreases |rest|
  {
    if rest == [] {
      assert stack + rest == stack;
    } else {
      PopFits(stack + rest);
      assert Pop(stack + rest) == stack + rest[..|rest| - 1];
      PrefixFits(stack, rest[..|rest| - 1]);
    }
  }

  /** A normalised path is its own normal form. */
  lemma NormalTwice(path: string)
    requires Normal(path).Some?
    ensures Normal(Normal(path).value) == Normal(path)
  {
    var stack := Resolve([], Components(path[1..])).value;
    ComponentsSlashFree(path[1..]);
    ResolvePlain([], Components(path[1..]));
    NormalOfText(stack);
  }

  lemma ComponentsOfText(stack: seq<string>)
    requires AllPlain(stack)
    ensures Text(stack) != "" && Text(stack)[0] == '/' && Components(Text(stack)[1..]) == stack
  {
    if stack != [] {
      ComponentsOfJoined(stack, "");
      assert Joined(stack) + "" == Joined(stack);
      StartsWithSlash(stack);
    }
  }

  lemma NormalOfText(stack: seq<string>)
    requires AllPlain(stack) && Fits(stack)
    ensures Normal(Text(stack)) == Some(Text(stack))
  {
    ComponentsOfText(stack);
    assert [] + stack == stack;
    ResolveOwn([], stack);
  }

  lemma {:induction false} StartsWithSlash(stack: seq<string>)
    requires stack != []
    ensures Joined(stack) != "" && Joined(stack)[0] == '/'
  {
    if |stack| > 1 {
      StartsWithSlash(stack[..|stack| - 1]);
    }
  }

  /** The text of a longer stack. */
  lemma PushText(stack: seq<string>, c: string)
    requires AllPlain(stack)
    ensures Text(stack + [c]) == (if stack == [] then "/" else Text(stack) + "/") + c
    ensures stack != [] ==> |Text(stack)| > 1
  {
    var s := stack + [c];
    assert s[..|s| - 1] == stack && s[|s| - 1] == c;
    assert Joined(s) == Joined(stack) + "/" + c;
    assert Joined([]) == "" && "" + "/" == "/";
  }

  // ---------------------------------------------------------------------------
  // normalize_absolute
  // ---------------------------------------------------------------------------

  method SkipSlashes(input: string, cursor: nat) returns (start: nat)
    requires cursor <= |input|
    ensures cursor <= start <= |input| && Components(input[start..]) == Components(input[cursor..]) && (start < |input| ==> input[start] != '/')
  {
    start := cursor;
    while start < |input| && input[start] == '/'
      invariant cursor <= start <= |input| && Components(input[start..]) == Components(input[cursor..])
    {
      assert input[start..][1..] == input[start + 1..];
      start := start + 1;
    }
  }

  method ComponentEnd(input: string, start: nat) returns (end: nat)
    requires start <= |input|
    ensures start <= end <= |input| && end - start == Word(input[start..])
  {
    ghost var rest := input[start..];
    end := start;
    while end < |input| && input[end] != '/'
      invariant start <= end <= |input| && forall i :: 0 <= i < end - start ==> rest[i] != '/'
    {
      end := end + 1;
    }
    WordIs(rest, end - start);
  }

  /** The next component at or after `cursor`, and where it ends; none when only slashes are
      left. */
  method NextComponent(input: string, cursor: nat) returns (start: nat, end: nat)
    requires cursor <= |input|
    ensures cursor <= start <= end <= |input|
    ensures start == end ==> Components(input[cursor..]) == []
    ensures start < end ==> Components(input[cursor..]) == [input[start..end]] + Components(input[end..])
  {
    start := SkipSlashes(input, cursor);
    end := ComponentEnd(input, start);
    ghost var rest := input[start..];
    assert rest[..end - start] == input[start..end] && rest[end - start..] == input[end..];
  }

  /** What the buffers hold for a stack: its text, and the length of the text under each of
      its components. */
  ghost predicate Represents(bytes: array<char>, len: nat, starts: array<nat>, depth: nat, stack: seq<string>)
    reads bytes, starts
  {
    && bytes.Length == MAX_PATH && starts.Length == MAX_DEPTH && depth == |stack| && Fits(stack)
    && len == |Text(stack)| && bytes[..len] == Text(stack)
    && forall i :: 0 <= i < depth ==> starts[i] == |Text(stack[..i])|
  }

  method WriteAt(bytes: array<char>, at: nat, c: string)
    requires at + |c| <= bytes.Length
    modifies bytes
    ensures bytes[..at + |c|] == old(bytes[..at]) + c
  {
    for i := 0 to |c|
      invariant bytes[..at + i] == old(bytes[..at]) + c[..i]
    {
      bytes[at + i] := c[i];
      assert c[..i + 1] == c[..i] + [c[i]];
    }
  }

  /** The component goes after a slash, except right after the root's. */
  method Append(bytes: array<char>, len0: nat, c: string) returns (ok: bool, len: nat)
    requires bytes.Length == MAX_PATH && 0 < len0 <= MAX_PATH && c != ""
    modifies bytes
    ensures var t := old(bytes[..len0]) + (if len0 != 1 then "/" else "") + c; (ok <==> |t| <= MAX_PATH) && (ok ==> len == |t| && bytes[..len] == t)
  {
    ok, len := false, len0;
    if len != 1 {
      if len == MAX_PATH {
        return;
      }
      bytes[len] := '/';
      len := len + 1;
    }
    if |c| > MAX_PATH - len {
      return;
    }
    WriteAt(bytes, len, c);
    len := len + |c|;
    ok := true;
  }

  lemma StartsAfterPush(starts: seq<nat>, stack: seq<string>, c: string)
    requires |starts| > |stack| && starts[|stack|] == |Text(stack)| && forall i :: 0 <= i < |stack| ==> starts[i] == |Text(stack[..i])|
    ensures forall i :: 0 <= i <= |stack| ==> starts[i] == |Text((stack + [c])[..i])|
  {
    forall i | 0 <= i <= |stack|
      ensures starts[i] == |Text((stack + [c])[..i])|
    {
      assert (stack + [c])[..i] == stack[..i];
      assert stack[..|stack|] == stack;
    }
  }

  /** Pushing a component within the limits. */
  method Push(bytes: array<char>, len0: nat, starts: array<nat>, depth0: nat, c: string, ghost stack: seq<string>)
    returns (ok: bool, len: nat, depth: nat)
    requires Represents(bytes, len0, starts, depth0, stack) && AllPlain(stack) && c != ""
    modifies bytes, starts
    ensures ok <==> Fits(stack + [c])
    ensures ok ==> Represents(bytes, len, starts, depth, stack + [c])
  {
    ok, len, depth := false, len0, depth0;
    PushText(stack, c);
    if depth == MAX_DEPTH {
      return;
    }
    starts[depth] := len;
    depth := depth + 1;
    StartsAfterPush(starts[..], stack, c);
    assert forall i :: 0 <= i < depth ==> starts[i] == |Text((stack + [c])[..i])|;
    ok, len := Append(bytes, len, c);
  }

  /** normalize_absolute: no write leaves the buffers, and the result is the normal form. */
  method NormalizeAbsolute(input: string) returns (r: Option<string>)
    ensures r == Normal(input)
  {
    if input == "" || input[0] != '/' {
      return None;
    }
    var bytes, starts := new char[MAX_PATH], new nat[MAX_DEPTH];
    bytes[0] := '/';
    var len: nat, depth: nat, cursor: nat := 1, 0, 1;
    ghost var stack, whole := [], Resolve([], Components(input[1..]));
    ComponentsSlashFree(input[1..]);
    while true
      invariant cursor <= |input| && Represents(bytes, len, starts, depth, stack) && AllPlain(stack)
      invariant Resolve(stack, Components(input[cursor..])) == whole
      invariant fresh(bytes) && fresh(starts)
      decreases |input| - cursor
    {
      var start, end := NextComponent(input, cursor);
      if start == end {
        return Some(bytes[..len]);
      }
      var c := input[start..end];
      ResolveUnfold(stack, c, Components(input[end..]));
      FirstSlashFree(input[cursor..], c, Components(input[end..]));
      var ok;
      ok, len, depth, stack := Turn(bytes, len, starts, depth, c, stack);
      if !ok {
        return None;
      }
      cursor := end;
    }
  }

  lemma FirstSlashFree(s: string, c: string, rest: seq<string>)
    requires Components(s) == [c] + rest
    ensures c != "" && forall i :: 0 <= i < |c| ==> c[i] != '/'
  {
    ComponentsSlashFree(s);
    assert Components(s)[0] == c;
  }

  /** What one component makes of a stack, if it fits. */
  function Next(stack: seq<string>, c: string): seq<string> {
    if c == "." then stack else if c == ".." then Pop(stack) else stack + [c]
  }

  method Turn(bytes: array<char>, len0: nat, starts: array<nat>, depth0: nat, c: string, ghost stack: seq<string>)
    returns (ok: bool, len: nat, depth: nat, ghost stack': seq<string>)
    requires Represents(bytes, len0, starts, depth0, stack) && AllPlain(stack) && c != "" && forall i :: 0 <= i < |c| ==> c[i] != '/'
    modifies bytes, starts
    ensures ok <==> c == "." || c == ".." || Fits(stack + [c])
    ensures ok ==> stack' == Next(stack, c) && Represents(bytes, len, starts, depth, stack') && AllPlain(stack')
  {
    ok, len, depth, stack' := true, len0, depth0, Next(stack, c);
    if c == "." {
      return;
    }
    if c == ".." {
      if depth != 0 {
        depth := depth - 1;
        len := starts[depth];
        Popped(bytes, len0, starts, depth0, stack);
      }
      return;
    }
    ok, len, depth := Push(bytes, len, starts, depth, c, stack);
  }

  lemma Popped(bytes: array<char>, len: nat, starts: array<nat>, depth: nat, stack: seq<string>)
    requires Represents(bytes, len, starts, depth, stack) && AllPlain(stack) && depth > 0
    ensures Represents(bytes, starts[depth - 1], starts, depth - 1, Pop(stack))
  {
    PopText(stack);
    PopFits(stack);
    forall i | 0 <= i < depth - 1
      ensures starts[i] == |Text(Pop(stack)[..i])|
    {
      assert Pop(stack)[..i] == stack[..i];
    }
  }

  lemma ResolveUnfold(stack: seq<string>, c: string, rest: seq<string>)
    ensures Resolve(stack, [c] + rest) == if c == "." || c == ".." || Fits(stack + [c]) then Resolve(Next(stack, c), rest) else None
  {
    assert ([c] + rest)[1..] == rest;
  }

  /** Popping leaves a prefix of the text. */
  lemma PopText(stack: seq<string>)
    requires stack != [] && AllPlain(stack)
    ensures Text(Pop(stack)) <= Text(stack) && Pop(stack) == stack[..|stack| - 1]
  {
    PushText(Pop(stack), stack[|stack| - 1]);
    assert Pop(stack) + [stack[|stack| - 1]] == stack;
  }
}
