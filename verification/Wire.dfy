/** The lexical core of the control and stats wire: lines, tokens, exact-width numerals
    and the mandatory header. Pure meanings first, then the cursor loops that refine them.
    Text is a `string`, of which the byte strings the kernel sees are a part. */
module Wire {
  import opened Options

  // ---------------------------------------------------------------------------
  // Meaning
  // ---------------------------------------------------------------------------

  predicate IsSep(c: char) { c == ' ' || c == '\t' }

  predicate IsAscii(c: char) { ' ' <= c <= '~' }

  /** Offset of the first newline, or the length. */
  function LineLen(b: string): (n: nat)
    ensures n <= |b| && (n < |b| ==> b[n] == '\n')
  {
    if b == "" || b[0] == '\n' then 0 else 1 + LineLen(b[1..])
  }

  function StripCr(s: string): string {
    if s != "" && s[|s| - 1] == '\r' then s[..|s| - 1] else s
  }

  /** What follows the first line and its newline. */
  function AfterLine(b: string): (r: string)
    ensures b != "" ==> |r| < |b|
  {
    if LineLen(b) < |b| then b[LineLen(b) + 1..] else ""
  }

  /** The lines of a payload, each without its newline and one trailing CR. */
  function Lines(b: string): seq<string>
    decreases |b|
  {
    if b == "" then [] else [StripCr(b[..LineLen(b)])] + Lines(AfterLine(b))
  }

  function SkipSeps(s: string): (r: string)
    ensures |r| <= |s| && (r != "" ==> !IsSep(r[0]))
  {
    if s != "" && IsSep(s[0]) then SkipSeps(s[1..]) else s
  }

  function TokenLen(s: string): (n: nat)
    ensures n <= |s| && (n < |s| ==> IsSep(s[n])) && (s != "" && !IsSep(s[0]) ==> n > 0)
  {
    if s == "" || IsSep(s[0]) then 0 else 1 + TokenLen(s[1..])
  }

  /** The whitespace-separated tokens of a line. */
  function Tokens(s: string): seq<string>
    decreases |s|
  {
    var t := SkipSeps(s);
    if t == "" then [] else [t[..TokenLen(t)]] + Tokens(t[TokenLen(t)..])
  }

  predicate Ascii(line: string) {
    forall i :: 0 <= i < |line| ==> IsAscii(line[i]) || line[i] == '\t'
  }

  /** Neither blank nor a comment. */
  predicate Significant(line: string) {
    var t := SkipSeps(line);
    t != "" && t[0] != '#'
  }

  /** The value of a digit, in any case; 99 for anything else. */
  function Digit(c: char): nat {
    if '0' <= c <= '9' then (c - '0') as nat
    else if 'a' <= c <= 'f' then (c - 'a') as nat + 10
    else if 'A' <= c <= 'F' then (c - 'A') as nat + 10
    else 99
  }

  predicate Digits(s: string, base: nat) {
    forall i :: 0 <= i < |s| ==> Digit(s[i]) < base
  }

  /** The mathematical value of a digit string, most significant digit first. */
  function Value(s: string, base: nat): nat {
    if s == "" then 0 else Value(s[..|s| - 1], base) * base + Digit(s[|s| - 1])
  }

  const U32_MAX: nat := 0xFFFF_FFFF
  const U64_MAX: nat := 0xFFFF_FFFF_FFFF_FFFF

  /** A non-empty digit string whose exact value fits, or nothing. */
  function Numeral(s: string, base: nat, max: nat): Option<nat> {
    if s != "" && Digits(s, base) && Value(s, base) <= max then Some(Value(s, base)) else None
  }

  /** `0x` (any case of x) followed by a hex numeral. */
  function Prefixed(s: string, max: nat): Option<nat> {
    if |s| >= 3 && s[0] == '0' && (s[1] == 'x' || s[1] == 'X') then Numeral(s[2..], 16, max) else None
  }

  // ---------------------------------------------------------------------------
  // Cursor loops
  // ---------------------------------------------------------------------------

  method FindNewline(b: string, s: nat) returns (e: nat)
    requires s <= |b|
    ensures s <= e <= |b| && e - s == LineLen(b[s..])
  {
    e := s;
    while e < |b| && b[e] != '\n'
      invariant s <= e <= |b| && LineLen(b[s..]) == e - s + LineLen(b[e..])
    {
      assert b[e..][1..] == b[e + 1..];
      e := e + 1;
    }
  }

  lemma LinesUnfold(b: string, s: nat, e: nat, next: nat)
    requires s < |b| && s <= e <= |b| && e - s == LineLen(b[s..]) && next == (if e < |b| then e + 1 else |b|)
    ensures Lines(b[s..]) == [StripCr(b[s..e])] + Lines(b[next..])
  {
    assert b[s..][..e - s] == b[s..e];
    assert AfterLine(b[s..]) == b[next..];
  }

  method StripEnd(b: string, ls: nat, e: nat) returns (le: nat)
    requires ls <= e <= |b|
    ensures ls <= le <= e && b[ls..le] == StripCr(b[ls..e])
  {
    le := if e > ls && b[e - 1] == '\r' then e - 1 else e;
  }

  /** Carve the next line out of b[i..]. */
  method NextLine(b: string, i: nat) returns (ok: bool, ls: nat, le: nat, next: nat)
    requires i <= |b|
    ensures ok <==> Lines(b[i..]) != []
    ensures ok ==> i <= ls <= le <= |b| && i < next <= |b|
    ensures ok ==> Lines(b[i..]) == [b[ls..le]] + Lines(b[next..])
    ensures !ok ==> next == i == |b|
  {
    if i >= |b| {
      return false, i, i, i;
    }
    ls := i;
    var e := FindNewline(b, ls);
    next := if e < |b| then e + 1 else |b|;
    LinesUnfold(b, ls, e, next);
    le := StripEnd(b, ls, e);
    ok := true;
  }

  method SkipSeparators(b: string, i: nat, end: nat) returns (p: nat)
    requires i <= end <= |b|
    ensures i <= p <= end && b[p..end] == SkipSeps(b[i..end])
  {
    p := i;
    while p < end && IsSep(b[p])
      invariant i <= p <= end && SkipSeps(b[i..end]) == SkipSeps(b[p..end])
    {
      assert b[p..end][1..] == b[p + 1..end];
      p := p + 1;
    }
  }

  /** Classify the line b[ls..le]; `cs` is its first non-separator. */
  method LineSignificant(b: string, ls: nat, le: nat) returns (significant: bool, cs: nat, ascii: bool)
    requires ls <= le <= |b|
    ensures significant == Significant(b[ls..le]) && ascii == Ascii(b[ls..le])
    ensures ls <= cs <= le && b[cs..le] == SkipSeps(b[ls..le])
  {
    ascii := true;
    for p := ls to le
      invariant ascii == forall k :: ls <= k < p ==> IsAscii(b[k]) || b[k] == '\t'
    {
      if !IsAscii(b[p]) && b[p] != '\t' {
        ascii := false;
      }
    }
    assert forall k :: 0 <= k < le - ls ==> b[ls..le][k] == b[ls + k];
    assert forall k :: ls <= k < le ==> b[k] == b[ls..le][k - ls];
    cs := SkipSeparators(b, ls, le);
    significant := cs < le && b[cs] != '#';
  }

  method TokenEnd(b: string, ts: nat, end: nat) returns (p: nat)
    requires ts <= end <= |b|
    ensures ts <= p <= end && TokenLen(b[ts..end]) == p - ts
  {
    p := ts;
    while p < end && !IsSep(b[p])
      invariant ts <= p <= end && TokenLen(b[ts..end]) == p - ts + TokenLen(b[p..end])
    {
      assert b[p..end][1..] == b[p + 1..end];
      p := p + 1;
    }
  }

  lemma TokensUnfold(b: string, i: nat, end: nat, ts: nat, te: nat)
    requires i <= ts <= te <= end <= |b| && b[ts..end] == SkipSeps(b[i..end]) && te - ts == TokenLen(b[ts..end]) && ts < end
    ensures ts < te && Tokens(b[i..end]) == [b[ts..te]] + Tokens(b[te..end])
  {
    var t := b[ts..end];
    assert t[..te - ts] == b[ts..te] && t[te - ts..] == b[te..end];
  }

  /** Next token of b[i..end]. */
  method NextToken(b: string, i: nat, end: nat) returns (ok: bool, ts: nat, te: nat, next: nat)
    requires i <= end <= |b|
    ensures i <= next <= end && (ok <==> Tokens(b[i..end]) != [])
    ensures ok ==> i <= ts < te == next && Tokens(b[i..end]) == [b[ts..te]] + Tokens(b[next..end])
  {
    ts := SkipSeparators(b, i, end);
    if ts >= end {
      return false, ts, ts, ts;
    }
    te := TokenEnd(b, ts, end);
    TokensUnfold(b, i, end, ts, te);
    return true, ts, te, te;
  }

  lemma ValueStep(s: string, base: nat, k: nat)
    requires k < |s|
    ensures Value(s[..k + 1], base) == Value(s[..k], base) * base + Digit(s[k])
  {
    assert s[..k + 1][..k] == s[..k];
  }

  /** Longer digit strings are never smaller: once over the limit, always over. */
  lemma {:induction false} ValueGrows(s: string, base: nat, k: nat)
    requires k <= |s| && base >= 1
    ensures Value(s, base) >= Value(s[..k], base)
  {
    if k < |s| {
      ValueGrows(s[..|s| - 1], base, k);
      assert s[..|s| - 1][..k] == s[..k];
      Product(Value(s[..|s| - 1], base), base, 1);
    } else {
      assert s[..k] == s;
    }
  }

  lemma OverflowTest(v: nat, d: nat, base: nat, max: nat)
    requires base >= 1 && d <= max
    ensures v > (max - d) / base <==> v * base + d > max
  {
    var q := (max - d) / base;
    Quotient(max - d, base);
    if v > q {
      Product(base, v, q + 1);
    } else {
      Product(base, q, v);
    }
  }

  lemma Quotient(n: nat, d: nat)
    requires d >= 1
    ensures d * (n / d) <= n < d * (n / d + 1)
  {
  }

  lemma Product(k: nat, a: nat, b: nat)
    requires a >= b
    ensures k * a >= k * b
  {
  }

  lemma DigitsStep(s: string, base: nat, k: nat)
    requires k < |s| && Digits(s[..k], base) && Digit(s[k]) < base
    ensures Digits(s[..k + 1], base)
  {
    assert s[..k + 1] == s[..k] + [s[k]];
  }

  /** Too large already: so is the whole. */
  lemma Overflowed(s: string, base: nat, k: nat, v: nat, d: nat, max: nat)
    requires k < |s| && base >= 1 && d <= max && d == Digit(s[k]) && v == Value(s[..k], base) && v > (max - d) / base
    ensures Value(s, base) > max
  {
    OverflowTest(v, d, base, max);
    ValueStep(s, base, k);
    ValueGrows(s, base, k + 1);
  }

  /** The digit loop shared by the decimal and hexadecimal readers: it accepts exactly the
      digit strings whose mathematical value fits, and returns that value. */
  method ReadDigits(b: string, ts: nat, te: nat, base: nat, max: nat) returns (r: Option<nat>)
    requires ts <= te <= |b| && 2 <= base <= 16 && max >= 15
    ensures r == Numeral(b[ts..te], base, max)
  {
    if ts >= te {
      return None;
    }
    var tok := b[ts..te];
    var v, p := 0, ts;
    while p < te
      invariant ts <= p <= te && Digits(tok[..p - ts], base) && v == Value(tok[..p - ts], base) <= max
    {
      var d := Digit(b[p]);
      assert tok[p - ts] == b[p];
      if d >= base {
        return None;
      }
      ValueStep(tok, base, p - ts);
      if v > (max - d) / base {
        Overflowed(tok, base, p - ts, v, d, max);
        return None;
      }
      OverflowTest(v, d, base, max);
      DigitsStep(tok, base, p - ts);
      v, p := v * base + d, p + 1;
    }
    assert tok[..te - ts] == tok;
    r := Some(v);
  }

  method TokDecimal(b: string, ts: nat, te: nat) returns (r: Option<nat>)
    requires ts <= te <= |b|
    ensures r == Numeral(b[ts..te], 10, U64_MAX)
  {
    r := ReadDigits(b, ts, te, 10, U64_MAX);
  }

  method TokHexBare(b: string, ts: nat, te: nat, bits: nat) returns (r: Option<nat>)
    requires ts <= te <= |b|
    ensures r == Numeral(b[ts..te], 16, if bits >= 64 then U64_MAX else U32_MAX)
  {
    r := ReadDigits(b, ts, te, 16, if bits >= 64 then U64_MAX else U32_MAX);
  }

  method TokHex(b: string, ts: nat, te: nat, bits: nat) returns (r: Option<nat>)
    requires ts <= te <= |b|
    ensures r == Prefixed(b[ts..te], if bits >= 64 then U64_MAX else U32_MAX)
  {
    if te - ts < 3 || b[ts] != '0' || (b[ts + 1] != 'x' && b[ts + 1] != 'X') {
      return None;
    }
    assert b[ts..te][2..] == b[ts + 2..te];
    r := ReadDigits(b, ts + 2, te, 16, if bits >= 64 then U64_MAX else U32_MAX);
  }

  // ---------------------------------------------------------------------------
  // Header
  // ---------------------------------------------------------------------------

  datatype Kind = InvalidKind | ConfigKind | StatsKind | StatusKind

  const CONTROL_VERSION: nat := 2
  const TELEMETRY_VERSION: nat := 1

  /** The kind a header line declares, if its version is the current one for that kind. */
  function HeaderLine(line: string): Kind {
    var t := Tokens(line);
    if !Ascii(line) || |t| < 3 || t[0] != "vpnhide" then InvalidKind
    else match Numeral(t[1], 10, U64_MAX)
      case None => InvalidKind
      case Some(ver) =>
        if t[2] == "config" then if ver == CONTROL_VERSION then ConfigKind else InvalidKind
        else if t[2] == "stats" then if ver == TELEMETRY_VERSION then StatsKind else InvalidKind
        else if t[2] == "status" then if ver == TELEMETRY_VERSION then StatusKind else InvalidKind
        else InvalidKind
  }

  /** The first significant line is the header; the rest are records. */
  function Header(lines: seq<string>): (Kind, seq<string>) {
    if lines == [] then (InvalidKind, [])
    else if !Significant(lines[0]) then Header(lines[1..])
    else (HeaderLine(lines[0]), lines[1..])
  }

  lemma TokensOfRest(line: string)
    ensures Tokens(SkipSeps(line)) == Tokens(line)
    ensures Significant(line) ==> Tokens(line) != []
  {
    assert SkipSeps(SkipSeps(line)) == SkipSeps(line);
  }

  /** The header line starting at b[cs], token by token. */
  method ReadHeaderLine(b: string, cs: nat, le: nat) returns (kind: Kind)
    requires cs <= le <= |b| && Ascii(b[cs..le])
    ensures kind == HeaderLine(b[cs..le])
  {
    ghost var t := Tokens(b[cs..le]);
    var ok, ts, te, p := NextToken(b, cs, le);
    if !ok || b[ts..te] != "vpnhide" {
      return InvalidKind;
    }
    ok, ts, te, p := NextToken(b, p, le);
    if !ok {
      return InvalidKind;
    }
    assert t[1] == b[ts..te];
    var ver := TokDecimal(b, ts, te);
    if ver == None {
      return InvalidKind;
    }
    ok, ts, te, p := NextToken(b, p, le);
    if !ok {
      return InvalidKind;
    }
    assert t[2] == b[ts..te];
    if b[ts..te] == "config" {
      return if ver.value != CONTROL_VERSION then InvalidKind else ConfigKind;
    }
    if b[ts..te] == "stats" {
      return if ver.value != TELEMETRY_VERSION then InvalidKind else StatsKind;
    }
    if b[ts..te] == "status" {
      return if ver.value != TELEMETRY_VERSION then InvalidKind else StatusKind;
    }
    return InvalidKind;
  }

  lemma SuffixAscii(line: string, rest: string)
    requires rest == SkipSeps(line)
    ensures Ascii(line) <==> Ascii(rest)
  {
    if line != "" && IsSep(line[0]) {
      SuffixAscii(line[1..], rest);
      assert line == [line[0]] + line[1..];
      assert forall i :: 0 < i < |line| ==> line[i] == line[1..][i - 1];
      assert forall i :: 0 <= i < |line| - 1 ==> line[1..][i] == line[i + 1];
    }
  }

  method ParseHeader(b: string) returns (kind: Kind, next: nat)
    ensures next <= |b| && kind == Header(Lines(b)).0
    ensures kind != InvalidKind ==> Lines(b[next..]) == Header(Lines(b)).1
  {
    next := 0;
    assert b[0..] == b;
    ghost var h := Header(Lines(b));
    while true
      invariant next <= |b| && Header(Lines(b[next..])) == h
      decreases |b| - next
    {
      var ok, ls, le, n := NextLine(b, next);
      if !ok {
        return InvalidKind, next;
      }
      HeaderUnfold(b[ls..le], Lines(b[n..]));
      next := n;
      var significant, cs, ascii := LineSignificant(b, ls, le);
      if significant {
        if !ascii {
          return InvalidKind, next;
        }
        HeaderLineSkips(b[ls..le], b[cs..le]);
        kind := ReadHeaderLine(b, cs, le);
        return kind, next;
      }
    }
  }

  lemma HeaderLineSkips(line: string, rest: string)
    requires rest == SkipSeps(line)
    ensures HeaderLine(rest) == HeaderLine(line) && (Ascii(line) <==> Ascii(rest))
    ensures Tokens(rest) == Tokens(line)
  {
    SuffixAscii(line, rest);
    TokensOfRest(line);
  }

  lemma HeaderUnfold(line: string, rest: seq<string>)
    ensures Header([line] + rest) == if Significant(line) then (HeaderLine(line), rest) else Header(rest)
  {
    assert ([line] + rest)[1..] == rest;
  }
}
