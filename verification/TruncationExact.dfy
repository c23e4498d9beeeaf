/** Exactly which accepted payloads can be cut into another accepted configuration: those some
    beginning of whose lines already closes the fuse and says something else. */
module TruncationExact {
  import opened Options
  import opened Wire
  import opened TargetSet
  import opened ConfigWire
  import opened Truncation

  /** What the records of a payload with these lines say. */
  function Says(lines: seq<string>): Reading { ReadLines(NOTHING, Header(lines).1) }

  /** A current config header, and the last well-formed `end` counts the uid tokens so far. */
  predicate Closes(lines: seq<string>) {
    Header(lines).0 == ConfigKind && Says(lines).declared == Some(|Says(lines).records|)
  }

  /** The first j lines, then a beginning q of the next one, if any. */
  function Cut(lines: seq<string>, j: nat, q: string): seq<string>
    requires j <= |lines|
  {
    lines[..j] + if q == "" then [] else [q]
  }

  predicate Beginning(lines: seq<string>, j: nat, q: string) {
    j <= |lines| && (q != "" ==> j < |lines| && q <= lines[j] && q[|q| - 1] != '\r')
  }

  /** A cut of the lines closes the fuse and says something else. A cut inside a line must also
      have only good uid tokens and room for them; for whole lines that goes without saying. */
  predicate Escapes(lines: seq<string>, j: nat, q: string, max: nat) {
    && Beginning(lines, j, q) && Closes(Cut(lines, j, q)) && !SameConfig(Says(Cut(lines, j, q)), Says(lines))
    && (q != "" ==> Says(Cut(lines, j, q)).clean && |MapOf(Says(Cut(lines, j, q)).records)| <= max)
  }

  // ---------------------------------------------------------------------------
  // A byte prefix for every cut
  // ---------------------------------------------------------------------------

  predicate NoNewline(s: string) { forall i :: 0 <= i < |s| ==> s[i] != '\n' }

  lemma {:induction false} LineLenIs(first: string, rest: string)
    requires NoNewline(first) && (rest == "" || rest[0] == '\n')
    ensures LineLen(first + rest) == |first|
  {
    if first == "" {
      assert first + rest == rest;
    } else {
      assert (first + rest)[1..] == first[1..] + rest;
      LineLenIs(first[1..], rest);
    }
  }

  lemma {:induction false} LineLenFree(b: string)
    ensures NoNewline(b[..LineLen(b)])
  {
    if b != "" && b[0] != '\n' {
      LineLenFree(b[1..]);
      assert b[..LineLen(b)] == [b[0]] + b[1..][..LineLen(b[1..])];
    }
  }

  /** A text with a newline is its first line and the rest. */
  lemma SplitFirst(b: string) returns (first: string, rest: string)
    requires LineLen(b) < |b|
    ensures NoNewline(first) && b == first + ("\n" + rest)
  {
    var e := LineLen(b);
    first, rest := b[..e], b[e + 1..];
    LineLenFree(b);
  }

  lemma ConsLines(first: string, rest: string)
    requires NoNewline(first)
    ensures Lines(first + ("\n" + rest)) == [StripCr(first)] + Lines(rest)
  {
    var tail := "\n" + rest;
    var b := first + tail;
    LineLenIs(first, tail);
    assert b[..|first|] == first && b[|first| + 1..] == rest;
  }

  lemma LastLine(first: string)
    requires NoNewline(first) && first != ""
    ensures Lines(first) == [StripCr(first)]
  {
    LineLenIs(first, "");
    assert first + "" == first && first[..|first|] == first && AfterLine(first) == "";
  }

  lemma PrefixCons(first: string, p: string, rest: string)
    requires p <= rest
    ensures first + ("\n" + p) <= first + ("\n" + rest)
  {
    assert rest == p + rest[|p|..];
    assert first + ("\n" + rest) == first + ("\n" + p) + rest[|p|..];
  }

  lemma TakeCons(x: string, rest: seq<string>, j: nat)
    requires 0 < j <= |rest| + 1
    ensures ([x] + rest)[..j] == [x] + rest[..j - 1]
  {
  }

  /** A text without a newline is one line. */
  lemma WholeIsOne(b: string)
    requires b != "" && LineLen(b) == |b|
    ensures NoNewline(b) && Lines(b) == [StripCr(b)]
  {
    LineLenFree(b);
    assert b[..|b|] == b;
    LastLine(b);
  }

  lemma {:induction false} PrefixForLines(b: string, j: nat) returns (p: string)
    requires j <= |Lines(b)|
    ensures p <= b && Lines(p) == Lines(b)[..j]
    decreases |b|
  {
    if j == 0 {
      p := "";
    } else if LineLen(b) == |b| {
      WholeIsOne(b);
      p := b;
      assert Lines(b)[..j] == Lines(b);
    } else {
      var first, rest := SplitFirst(b);
      ConsLines(first, rest);
      var tail := PrefixForLines(rest, j - 1);
      ConsLines(first, tail);
      TakeCons(StripCr(first), Lines(rest), j);
      PrefixCons(first, tail, rest);
      p := first + ("\n" + tail);
    }
  }

  lemma CrPrefix(first: string, q: string)
    requires q <= StripCr(first) && q != "" && q[|q| - 1] != '\r' && NoNewline(first)
    ensures q <= first && Lines(q) == [q]
  {
    assert NoNewline(q);
    LastLine(q);
  }

  /** A cut inside the first line. */
  lemma ShortCut(b: string, q: string)
    requires Beginning(Lines(b), 0, q) && q != ""
    ensures q <= b && Lines(q) == [q]
  {
    if LineLen(b) == |b| {
      WholeIsOne(b);
      CrPrefix(b, q);
    } else {
      var first, rest := SplitFirst(b);
      ConsLines(first, rest);
      CrPrefix(first, q);
    }
  }

  lemma CutBehind(x: string, rest: seq<string>, tail: seq<string>, j: nat, q: string)
    requires 0 < j <= |rest| + 1 && tail == rest[..j - 1] + [q]
    ensures [x] + tail == ([x] + rest)[..j] + [q]
  {
    TakeCons(x, rest, j);
  }

  lemma BeginningBehind(first: string, rest: string, j: nat, q: string)
    requires NoNewline(first) && j > 0 && Beginning(Lines(first + ("\n" + rest)), j, q)
    ensures Beginning(Lines(rest), j - 1, q)
  {
    ConsLines(first, rest);
  }

  lemma {:induction false} PrefixForCut(b: string, j: nat, q: string) returns (p: string)
    requires Beginning(Lines(b), j, q) && q != ""
    ensures p <= b && Lines(p) == Lines(b)[..j] + [q]
    decreases |b|
  {
    if j == 0 {
      ShortCut(b, q);
      p := q;
      assert Lines(b)[..0] + [q] == [q];
    } else {
      if LineLen(b) == |b| {
        WholeIsOne(b);
      }
      var first, rest := SplitFirst(b);
      BeginningBehind(first, rest, j, q);
      var tail := PrefixForCut(rest, j - 1, q);
      ConsLines(first, rest);
      ConsLines(first, tail);
      CutBehind(StripCr(first), Lines(rest), Lines(tail), j, q);
      PrefixCons(first, tail, rest);
      p := first + ("\n" + tail);
    }
  }

  // ---------------------------------------------------------------------------
  // Whole lines
  // ---------------------------------------------------------------------------

  lemma HeaderAt(lines: seq<string>, h: nat)
    requires h < |lines| && Significant(lines[h]) && forall i :: 0 <= i < h ==> !Significant(lines[i])
    ensures Header(lines) == (HeaderLine(lines[h]), lines[h + 1..])
  {
    var k := HeaderSplit(lines);
  }

  /** With a valid header among the first j lines, all the lines read on from them. */
  lemma ReadsOn(lines: seq<string>, j: nat)
    requires j <= |lines| && Header(lines[..j]).0 == ConfigKind
    ensures Header(lines).0 == ConfigKind && Says(lines) == ReadLines(Says(lines[..j]), lines[j..])
  {
    var front := lines[..j];
    var h := HeaderSplit(front);
    assert lines[h] == front[h];
    forall i | 0 <= i < h
      ensures !Significant(lines[i])
    {
      assert lines[i] == front[i];
    }
    HeaderAt(lines, h);
    assert lines[h + 1..] == front[h + 1..] + lines[j..];
    ReadLinesSplit(NOTHING, front[h + 1..], lines[j..]);
  }

  /** Good uid tokens and room for them go back to the beginning. */
  lemma GoodFromTheStart(lines: seq<string>, j: nat, max: nat)
    requires j <= |lines| && Header(lines[..j]).0 == ConfigKind && Says(lines).clean && |MapOf(Says(lines).records)| <= max
    ensures Says(lines[..j]).clean && |MapOf(Says(lines[..j]).records)| <= max
  {
    ReadsOn(lines, j);
    var r := Says(lines[..j]);
    LinesMonotone(r, lines[j..]);
    DistinctMonotone(r.records, Says(lines).records);
  }

  /** Whenever the first j lines of an accepted payload close the fuse and read to another
      configuration, some byte prefix is accepted and means something else. */
  lemma ClosedEarlyCanBeCut(b: string, max: nat, j: nat) returns (p: string)
    requires Accepted(b, max) && j <= |Lines(b)| && Closes(Lines(b)[..j]) && !SameConfig(Says(Lines(b)[..j]), Payload(b))
    ensures p <= b && Lines(p) == Lines(b)[..j] && Accepted(p, max) && !SameConfig(Payload(p), Payload(b))
  {
    p := PrefixForLines(b, j);
    GoodFromTheStart(Lines(b), j, max);
  }

  // ---------------------------------------------------------------------------
  // The exact condition
  // ---------------------------------------------------------------------------

  lemma EscapeIsReached(b: string, max: nat, j: nat, q: string) returns (p: string)
    requires Accepted(b, max) && Escapes(Lines(b), j, q, max)
    ensures p <= b && Accepted(p, max) && !SameConfig(Payload(p), Payload(b))
  {
    var lines := Lines(b);
    if q == "" {
      assert Cut(lines, j, q) == lines[..j];
      p := ClosedEarlyCanBeCut(b, max, j);
    } else {
      p := PrefixForCut(b, j, q);
    }
  }

  /** A last line that is not significant, or not ASCII, adds nothing to a valid payload. */
  lemma DeadLine(lines: seq<string>, x: string)
    requires (!Significant(x) || !Ascii(x)) && Header(lines + [x]).0 == ConfigKind
    ensures Header(lines).0 == ConfigKind && Says(lines + [x]) == Says(lines)
  {
    var all := lines + [x];
    var h := HeaderSplit(all);
    if h < |lines| {
      forall i | 0 <= i <= h
        ensures lines[i] == all[i]
      {
      }
      HeaderAt(lines, h);
      assert all[h + 1..] == lines[h + 1..] + [x];
      ReadLinesSplit(NOTHING, lines[h + 1..], [x]);
      ReadLinesUnfold(ReadLines(NOTHING, lines[h + 1..]), x, []);
      assert [x] + [] == [x];
    }
  }

  lemma CutIsBeginning(lines: seq<string>, cut: seq<string>, j: nat) returns (q: string)
    requires CutAt(cut, lines, j) && Header(cut).0 == ConfigKind
    ensures Beginning(lines, j, q) && Header(Cut(lines, j, q)).0 == ConfigKind && Says(Cut(lines, j, q)) == Says(cut)
  {
    if |cut| == j {
      q := "";
      assert Cut(lines, j, q) == cut;
    } else {
      assert cut == lines[..j] + [cut[j]];
      q := LiveLine(lines, j, cut[j]);
    }
  }

  /** Every byte prefix reads as a cut of the lines. */
  lemma PrefixIsCut(b: string, p: string) returns (j: nat, q: string)
    requires p <= b && Header(Lines(p)).0 == ConfigKind
    ensures Beginning(Lines(b), j, q) && Header(Cut(Lines(b), j, q)).0 == ConfigKind && Says(Cut(Lines(b), j, q)) == Says(Lines(p))
  {
    assert b[..|p|] == p;
    j := LinesOfPrefix(b, |p|);
    q := CutIsBeginning(Lines(b), Lines(p), j);
  }

  /** A line cut right after a CR, or to nothing, is as good as gone. */
  lemma LiveLine(lines: seq<string>, j: nat, x: string) returns (q: string)
    requires j < |lines| && x <= lines[j] && Header(lines[..j] + [x]).0 == ConfigKind
    ensures Beginning(lines, j, q) && Header(Cut(lines, j, q)).0 == ConfigKind && Says(Cut(lines, j, q)) == Says(lines[..j] + [x])
  {
    if x == "" || x[|x| - 1] == '\r' {
      assert !Significant(x) || !Ascii(x);
      DeadLine(lines[..j], x);
      q := "";
      assert Cut(lines, j, q) == lines[..j];
    } else {
      q := x;
    }
  }

  /** An accepted payload can be cut into another accepted configuration exactly when some
      beginning of its lines escapes the fuse. */
  lemma CutsEscapeExactly(b: string, max: nat)
    requires Accepted(b, max)
    ensures (exists p :: p <= b && Accepted(p, max) && !SameConfig(Payload(p), Payload(b))) <==>
            exists j: nat, q :: Escapes(Lines(b), j, q, max)
  {
    if p :| p <= b && Accepted(p, max) && !SameConfig(Payload(p), Payload(b)) {
      var j, q := PrefixIsCut(b, p);
      assert Escapes(Lines(b), j, q, max);
    }
    if j: nat, q :| Escapes(Lines(b), j, q, max) {
      var p := EscapeIsReached(b, max, j, q);
    }
  }
}
