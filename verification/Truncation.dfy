/** The `end` fuse against truncation: cutting an accepted payload anywhere either gets it
    rejected or leaves the same targets, default mask and debug flag. */
module Truncation {
  import opened Options
  import opened Wire
  import opened TargetSet
  import opened ConfigWire

  /** A line whose first token is `end`, well formed or not. */
  predicate IsEnd(line: string) {
    Significant(line) && Tokens(line) != [] && Tokens(line)[0] == "end"
  }

  /** Line k is the only `end` record, and no record follows it. */
  ghost predicate EndIsLast(lines: seq<string>, k: int) {
    && 0 <= k < |lines| && IsEnd(lines[k])
    && (forall j :: 0 <= j < k ==> !IsEnd(lines[j]))
    && (forall j :: k < j < |lines| ==> !Significant(lines[j]))
  }

  /** Same outcome for the backend: everything but the fuse itself. */
  predicate SameConfig(r: Reading, s: Reading) {
    r.records == s.records && r.clean == s.clean && r.defaultMask == s.defaultMask && r.debug == s.debug
  }

  // ---------------------------------------------------------------------------
  // Lines of a prefix
  // ---------------------------------------------------------------------------

  /** The lines of a prefix of a text with lines `lines`: the first j of them, then perhaps
      a beginning q of the next. */
  ghost predicate CutAt(cut: seq<string>, lines: seq<string>, j: int) {
    && 0 <= j <= |lines| && j <= |cut| <= j + 1
    && (forall i :: 0 <= i < j ==> cut[i] == lines[i])
    && (|cut| == j + 1 ==> j < |lines| && cut[j] <= lines[j])
  }

  lemma {:induction false} LineLenOfPrefix(b: string, n: nat)
    requires n <= |b|
    ensures LineLen(b[..n]) == if n <= LineLen(b) then n else LineLen(b)
  {
    if n != 0 && b[0] != '\n' {
      assert b[..n][1..] == b[1..][..n - 1];
      LineLenOfPrefix(b[1..], n - 1);
    }
  }

  lemma StripCrOfPrefix(raw: string, n: nat)
    requires n <= |raw|
    ensures StripCr(raw[..n]) <= StripCr(raw)
  {
    if n == |raw| {
      assert raw[..n] == raw;
    }
  }

  lemma CutCons(x: string, cut: seq<string>, lines: seq<string>, k: nat)
    requires CutAt(cut, lines, k)
    ensures CutAt([x] + cut, [x] + lines, k + 1)
  {
  }

  lemma LinesOfShort(b: string, n: nat)
    requires 0 < n <= LineLen(b)
    ensures Lines(b[..n]) == [StripCr(b[..n])] && StripCr(b[..n]) <= Lines(b)[0]
  {
    var p, raw := b[..n], b[..LineLen(b)];
    LineLenOfPrefix(b, n);
    assert AfterLine(p) == "" && p[..n] == p && p == raw[..n];
    StripCrOfPrefix(raw, n);
  }

  lemma LinesOfLong(b: string, n: nat, e: nat)
    requires LineLen(b) == e < n <= |b|
    ensures Lines(b[..n]) == [StripCr(b[..e])] + Lines(b[e + 1..n])
  {
    var p := b[..n];
    assert LineLen(p) == e by { LineLenOfPrefix(b, n); }
    assert p[0..] == p && p[0..e] == b[..e] && p[e + 1..] == b[e + 1..n];
    LinesUnfold(p, 0, e, e + 1);
  }

  lemma CutLong(b: string, n: nat, e: nat, k: nat)
    requires LineLen(b) == e < n <= |b| && CutAt(Lines(b[e + 1..n]), Lines(b[e + 1..]), k)
    ensures CutAt(Lines(b[..n]), Lines(b), k + 1)
  {
    LinesOfLong(b, n, e);
    LinesOfFirst(b, e);
    CutCons(StripCr(b[..e]), Lines(b[e + 1..n]), Lines(b[e + 1..]), k);
  }

  lemma LinesOfFirst(b: string, e: nat)
    requires LineLen(b) == e < |b|
    ensures Lines(b) == [StripCr(b[..e])] + Lines(b[e + 1..])
  {
    LinesUnfold(b, 0, e, e + 1);
    assert b[0..] == b && b[0..e] == b[..e];
  }

  lemma CutShort(b: string, n: nat)
    requires n <= LineLen(b)
    ensures CutAt(Lines(b[..n]), Lines(b), 0)
  {
    if n > 0 {
      LinesOfShort(b, n);
    }
  }

  lemma CutRest(b: string, n: nat, e: nat, rest: string, k: nat)
    requires LineLen(b) == e < n <= |b| && rest == b[e + 1..] && CutAt(Lines(rest[..n - e - 1]), Lines(rest), k)
    ensures CutAt(Lines(b[..n]), Lines(b), k + 1)
  {
    assert rest[..n - e - 1] == b[e + 1..n];
    CutLong(b, n, e, k);
  }

  lemma {:induction false} LinesOfPrefix(b: string, n: nat) returns (j: nat)
    requires n <= |b|
    ensures CutAt(Lines(b[..n]), Lines(b), j)
    decreases |b|
  {
    var e := LineLen(b);
    if n <= e {
      CutShort(b, n);
      j := 0;
    } else {
      var k := LinesOfPrefix(b[e + 1..], n - e - 1);
      CutRest(b, n, e, b[e + 1..], k);
      j := k + 1;
    }
  }

  // ---------------------------------------------------------------------------
  // A beginning of a line
  // ---------------------------------------------------------------------------

  lemma {:induction false} SkipSepsOfPrefix(q: string, l: string)
    requires q <= l
    ensures SkipSeps(q) <= SkipSeps(l)
  {
    if q != "" && IsSep(q[0]) {
      assert q[1..] <= l[1..];
      SkipSepsOfPrefix(q[1..], l[1..]);
    } else if q == "" {
    } else {
      assert q[0] == l[0];
    }
  }

  lemma {:induction false} TokenLenOfPrefix(q: string, l: string)
    requires q <= l && TokenLen(q) < |q|
    ensures TokenLen(l) == TokenLen(q)
  {
    assert q[0] == l[0];
    if !IsSep(q[0]) {
      assert q[1..] <= l[1..];
      TokenLenOfPrefix(q[1..], l[1..]);
    }
  }

  lemma SignificantPrefix(q: string, l: string)
    requires q <= l && Significant(q)
    ensures Significant(l)
  {
    SkipSepsOfPrefix(q, l);
    assert SkipSeps(q)[0] == SkipSeps(l)[0];
  }

  /** A beginning with two tokens has the line's own first token. */
  lemma FirstTokenOfPrefix(q: string, l: string)
    requires q <= l && |Tokens(q)| >= 2
    ensures Tokens(l) != [] && Tokens(l)[0] == Tokens(q)[0]
  {
    SkipSepsOfPrefix(q, l);
    var s, t := SkipSeps(q), SkipSeps(l);
    var n := TokenLen(s);
    if n == |s| {
      assert Tokens(s[n..]) == [];
    }
    TokenLenOfPrefix(s, t);
    assert s[..n] == t[..n];
  }

  /** Cutting a line that is not an `end` record never sets the fuse. */
  lemma PrefixKeepsFuseOpen(r: Reading, q: string, l: string)
    requires q <= l && !IsEnd(l)
    ensures ReadLine(r, q).declared == r.declared
  {
    if Significant(q) && |Tokens(q)| >= 2 {
      SignificantPrefix(q, l);
      FirstTokenOfPrefix(q, l);
      if Hex32(Tokens(q)[1]) != None {
        UidsKeepRest(r, Hex32(Tokens(q)[1]).value, Tokens(q)[2..]);
      }
    }
  }

  /** Cutting an `end` record changes nothing but the fuse. */
  lemma PrefixOfEnd(r: Reading, q: string, l: string)
    requires q <= l && IsEnd(l)
    ensures SameConfig(ReadLine(r, q), r)
  {
    if Significant(q) && |Tokens(q)| >= 2 {
      FirstTokenOfPrefix(q, l);
    }
  }

  // ---------------------------------------------------------------------------
  // Readings of many lines
  // ---------------------------------------------------------------------------

  lemma {:induction false} ReadLinesSplit(r: Reading, a: seq<string>, b: seq<string>)
    ensures ReadLines(r, a + b) == ReadLines(ReadLines(r, a), b)
    decreases |a|
  {
    if a == [] {
      assert a + b == b;
    } else {
      assert (a + b)[1..] == a[1..] + b;
      ReadLinesSplit(ReadLine(r, a[0]), a[1..], b);
    }
  }

  lemma {:induction false} FuseStaysOpen(r: Reading, lines: seq<string>)
    requires forall j :: 0 <= j < |lines| ==> !IsEnd(lines[j])
    ensures ReadLines(r, lines).declared == r.declared
    decreases |lines|
  {
    if lines != [] {
      PrefixKeepsFuseOpen(r, lines[0], lines[0]);
      FuseStaysOpen(ReadLine(r, lines[0]), lines[1..]);
    }
  }

  lemma {:induction false} QuietLines(r: Reading, lines: seq<string>)
    requires forall j :: 0 <= j < |lines| ==> !Significant(lines[j])
    ensures ReadLines(r, lines) == r
    decreases |lines|
  {
    if lines != [] {
      QuietLines(r, lines[1..]);
    }
  }

  /** Where the header is: before it nothing significant, after it the records. */
  lemma {:induction false} HeaderSplit(lines: seq<string>) returns (h: nat)
    ensures h <= |lines| && (forall j :: 0 <= j < h ==> !Significant(lines[j]))
    ensures if h == |lines| then Header(lines) == (InvalidKind, []) else Significant(lines[h]) && Header(lines) == (HeaderLine(lines[h]), lines[h + 1..])
  {
    if lines == [] {
      return 0;
    }
    if Significant(lines[0]) {
      return 0;
    }
    h := HeaderSplit(lines[1..]);
    h := h + 1;
    forall j | 0 <= j < h
      ensures !Significant(lines[j])
    {
      assert j > 0 ==> lines[j] == lines[1..][j - 1];
    }
  }

  // ---------------------------------------------------------------------------
  // The fuse
  // ---------------------------------------------------------------------------

  /** Lines none of which is an `end` record, but for a beginning of one more. */
  lemma CutReadsNoFuse(lines: seq<string>, cut: seq<string>, j: nat, from: nat)
    requires CutAt(cut, lines, j) && from <= |cut|
    requires forall i :: 0 <= i < |lines| && i <= j && i < |cut| ==> !IsEnd(lines[i])
    ensures ReadLines(NOTHING, cut[from..]).declared == None
  {
    if from < |cut| == j + 1 {
      var front := cut[from..j];
      assert cut[from..] == front + [cut[j]];
      ReadLinesSplit(NOTHING, front, [cut[j]]);
      FuseStaysOpen(NOTHING, front);
      PrefixKeepsFuseOpen(ReadLines(NOTHING, front), cut[j], lines[j]);
    } else {
      FuseStaysOpen(NOTHING, cut[from..]);
    }
  }

  /** No `end` record among the first n lines. */
  ghost predicate NoEndIn(lines: seq<string>, n: nat) { forall i :: 0 <= i < |lines| && i < n ==> !IsEnd(lines[i]) }

  /** A text cut before its `end` record leaves the fuse unset. */
  lemma CutBeforeEnd(lines: seq<string>, cut: seq<string>, j: nat)
    requires CutAt(cut, lines, j) && NoEndIn(lines, |cut|)
    ensures ReadLines(NOTHING, Header(cut).1).declared == None
  {
    var h := HeaderSplit(cut);
    if h < |cut| {
      CutReadsNoFuse(lines, cut, j, h + 1);
    }
  }

  lemma SameHeader(lines: seq<string>, cut: seq<string>, j: nat, h: nat)
    requires CutAt(cut, lines, j) && h < j && Significant(lines[h]) && (forall i :: 0 <= i < h ==> !Significant(lines[i]))
    ensures h < |cut| && Header(cut).1 == cut[h + 1..] && Header(lines).1 == lines[h + 1..]
  {
    var a := HeaderSplit(cut);
    var b := HeaderSplit(lines);
    assert Significant(cut[h]);
  }

  /** Records, then a beginning of an `end` record, then nothing significant: the records
      alone decide the configuration. */
  lemma ReadAround(c: seq<string>, from: nat, k: nat, end: string)
    requires from <= k < |c| && IsEnd(end) && c[k] <= end
    requires forall i :: k < i < |c| ==> !Significant(c[i])
    ensures SameConfig(ReadLines(NOTHING, c[from..]), ReadLines(NOTHING, c[from..k]))
  {
    var front, rest := c[from..k], c[k + 1..];
    assert c[from..] == front + ([c[k]] + rest);
    ReadLinesSplit(NOTHING, front, [c[k]] + rest);
    var r := ReadLines(NOTHING, front);
    ReadLinesUnfold(r, c[k], rest);
    PrefixOfEnd(r, c[k], end);
    QuietLines(ReadLine(r, c[k]), rest);
  }

  /** A text cut inside or after its `end` record reads the same but for the fuse. */
  lemma CutFromEnd(lines: seq<string>, cut: seq<string>, j: nat, k: nat, h: nat)
    requires EndIsLast(lines, k) && CutAt(cut, lines, j) && (j > k || (j == k && |cut| == j + 1))
    requires h < k && Significant(lines[h]) && (forall i :: 0 <= i < h ==> !Significant(lines[i]))
    ensures SameConfig(ReadLines(NOTHING, Header(cut).1), ReadLines(NOTHING, Header(lines).1))
  {
    SameHeader(lines, cut, j, h);
    SameUpTo(lines, cut, j, h + 1, k);
    QuietAfterEnd(lines, cut, j, k);
    AlikeAround(lines, cut, h + 1, k);
  }

  lemma AlikeAround(lines: seq<string>, cut: seq<string>, from: nat, k: nat)
    requires from <= k < |lines| && k < |cut| && IsEnd(lines[k]) && cut[k] <= lines[k] && cut[from..k] == lines[from..k]
    requires (forall i :: k < i < |lines| ==> !Significant(lines[i])) && (forall i :: k < i < |cut| ==> !Significant(cut[i]))
    ensures SameConfig(ReadLines(NOTHING, cut[from..]), ReadLines(NOTHING, lines[from..]))
  {
    ReadAround(lines, from, k, lines[k]);
    ReadAround(cut, from, k, lines[k]);
  }

  lemma SameUpTo(lines: seq<string>, cut: seq<string>, j: nat, from: nat, k: nat)
    requires CutAt(cut, lines, j) && from <= k <= j && k <= |cut|
    ensures cut[from..k] == lines[from..k]
  {
  }

  lemma QuietAfterEnd(lines: seq<string>, cut: seq<string>, j: nat, k: nat)
    requires CutAt(cut, lines, j) && (forall i :: k < i < |lines| ==> !Significant(lines[i]))
    ensures forall i :: k < i < |cut| ==> !Significant(cut[i])
  {
    forall i | k < i < |cut|
      ensures !Significant(cut[i])
    {
      if i == j && Significant(cut[i]) {
        SignificantPrefix(cut[i], lines[j]);
      }
    }
  }

  /** Every byte prefix of an accepted payload whose `end` record is its only one and its
      last record is rejected or means the same configuration. Leading zeros in the count
      and non-ASCII lines elsewhere make no difference. */
  lemma TruncationFailsClosed(b: string, max: nat, k: nat, n: nat)
    requires Accepted(b, max) && EndIsLast(Lines(b), k) && n <= |b|
    ensures !Accepted(b[..n], max) || SameConfig(Payload(b[..n]), Payload(b))
  {
    var lines, cut := Lines(b), Lines(b[..n]);
    var j := LinesOfPrefix(b, n);
    if j < k || (j == k && |cut| == j) {
      assert NoEndIn(lines, |cut|);
      CutBeforeEnd(lines, cut, j);
    } else {
      CutLate(lines, cut, j, k);
    }
  }

  lemma CutLate(lines: seq<string>, cut: seq<string>, j: nat, k: nat)
    requires EndIsLast(lines, k) && CutAt(cut, lines, j) && (j > k || (j == k && |cut| == j + 1)) && Header(lines).0 != InvalidKind
    ensures SameConfig(ReadLines(NOTHING, Header(cut).1), ReadLines(NOTHING, Header(lines).1))
  {
    var h := HeaderSplit(lines);
    HeaderIsNotEnd(lines[h]);
    CutFromEnd(lines, cut, j, k, h);
  }

  lemma HeaderIsNotEnd(line: string)
    requires HeaderLine(line) != InvalidKind
    ensures !IsEnd(line)
  {
  }
}
