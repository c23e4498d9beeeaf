/** The private command wire of the diagnostic lease: which texts are commands, and which
    command each of them is. */
module DiagWire {
  import opened Options
  import opened Wire
  import opened Printer

  const MAX_MS: nat := 5000
  const COMMAND_BYTES: nat := 128
  const MAX_TID: nat := 0x7FFF_FFFF
  const TOKEN: nat := 16
  const PREFIX: string := "v1 "
  const ARM: string := "arm "
  const ACTIVATE: string := "activate "
  const REVOKE: string := "revoke "
  const SPACE: string := " "

  datatype Command = Arm(tid: nat, uid: nat, nonce: nat, ms: nat) | Activate(nonce: nat) | Revoke(nonce: nat)

  // ---------------------------------------------------------------------------
  // Meaning
  // ---------------------------------------------------------------------------

  predicate LowerHex(c: char) { '0' <= c <= '9' || 'a' <= c <= 'f' }

  /** A nonce: sixteen lower-case hexadecimal digits, not all zero. */
  predicate IsToken(t: string) {
    |t| == TOKEN && (forall i :: 0 <= i < TOKEN ==> LowerHex(t[i])) && Value(t, 16) != 0
  }

  /** Digits whose exact value fits 32 bits. */
  predicate IsDecimal(d: string) { Numeral(d, 10, U32_MAX).Some? }

  predicate ArmLimits(tid: nat, uid: nat, ms: nat) { 0 < tid <= MAX_TID && uid != 0 && 0 < ms <= MAX_MS }

  function ArmText(tid: string, uid: string, token: string, ms: string): string {
    tid + (SPACE + (uid + (SPACE + (token + (SPACE + ms)))))
  }

  /** The grammar: `body` is what follows the prefix. */
  ghost predicate Spells(body: string, c: Command) {
    match c
    case Arm(tid, uid, nonce, ms) => exists a, b, t, d :: ArmSpelling(body, a, b, t, d, c)
    case Activate(nonce) => exists t :: body == ACTIVATE + t && IsToken(t) && Value(t, 16) == nonce
    case Revoke(nonce) => exists t :: body == REVOKE + t && IsToken(t) && Value(t, 16) == nonce
  }

  predicate ArmSpelling(body: string, a: string, b: string, t: string, d: string, c: Command) {
    && body == ARM + ArmText(a, b, t, d) && IsDecimal(a) && IsDecimal(b) && IsToken(t) && IsDecimal(d)
    && c == Arm(Value(a, 10), Value(b, 10), Value(t, 16), Value(d, 10)) && ArmLimits(c.tid, c.uid, c.ms)
  }

  /** A command as written to the node, with its newline. */
  ghost predicate IsCommand(input: string, c: Command) {
    0 < |input| <= COMMAND_BYTES && input[|input| - 1] == '\n' && PREFIX <= input[..|input| - 1] && Spells(input[|PREFIX|..|input| - 1], c)
  }

  // ---------------------------------------------------------------------------
  // Reading, from the front of what is left
  // ---------------------------------------------------------------------------

  function DigitRun(s: string): (n: nat)
    ensures n <= |s| && (n < |s| ==> !('0' <= s[n] <= '9')) && forall i :: 0 <= i < n ==> '0' <= s[i] <= '9'
  {
    if s == "" || !('0' <= s[0] <= '9') then 0 else 1 + DigitRun(s[1..])
  }

  function EatDecimal(s: string): Option<(nat, string)> {
    var v := Numeral(s[..DigitRun(s)], 10, U32_MAX);
    if v.Some? then Some((v.value, s[DigitRun(s)..])) else None
  }

  function EatToken(s: string): Option<(nat, string)> {
    if |s| >= TOKEN && IsToken(s[..TOKEN]) then Some((Value(s[..TOKEN], 16), s[TOKEN..])) else None
  }

  function ReadArm(s: string): Option<Command> {
    var tid := EatDecimal(s);
    if tid.None? then None
    else
      var uid := EatSpaced(tid.value.1);
      if uid.None? then None else ReadTerms(tid.value.0, uid.value.0, uid.value.1)
  }

  /** The nonce and duration of an arm command. */
  function ReadTerms(tid: nat, uid: nat, s: string): Option<Command> {
    if !(SPACE <= s) || EatToken(s[|SPACE|..]).None? then None
    else
      var token := EatToken(s[|SPACE|..]).value;
      var ms := EatSpaced(token.1);
      if ms.None? || ms.value.1 != "" || !ArmLimits(tid, uid, ms.value.0) then None
      else Some(Arm(tid, uid, token.0, ms.value.0))
  }

  /** A space and a decimal. */
  function EatSpaced(s: string): Option<(nat, string)> {
    if SPACE <= s then EatDecimal(s[|SPACE|..]) else None
  }

  function ReadGrant(s: string): Option<nat> {
    var t := EatToken(s);
    if t.None? || t.value.1 != "" then None else Some(t.value.0)
  }

  // ---------------------------------------------------------------------------
  // Reading is exact
  // ---------------------------------------------------------------------------

  lemma RunIs(s: string, n: nat)
    requires n <= |s| && (n < |s| ==> !('0' <= s[n] <= '9')) && forall i :: 0 <= i < n ==> '0' <= s[i] <= '9'
    ensures DigitRun(s) == n
  {
  }

  lemma DecimalFront(d: string, rest: string)
    requires IsDecimal(d) && (rest == "" || !('0' <= rest[0] <= '9'))
    ensures EatDecimal(d + rest) == Some((Value(d, 10), rest))
  {
    var s := d + rest;
    assert forall i :: 0 <= i < |d| ==> s[i] == d[i] && Digit(d[i]) < 10 && '0' <= d[i] <= '9';
    RunIs(s, |d|);
    assert s[..|d|] == d && s[|d|..] == rest;
  }

  lemma DecimalBack(s: string)
    requires EatDecimal(s).Some?
    ensures var d := s[..DigitRun(s)]; IsDecimal(d) && EatDecimal(s).value.0 == Value(d, 10) && s == d + EatDecimal(s).value.1
  {
  }

  lemma TokenFront(t: string, rest: string)
    requires IsToken(t)
    ensures EatToken(t + rest) == Some((Value(t, 16), rest))
  {
    assert (t + rest)[..TOKEN] == t && (t + rest)[TOKEN..] == rest;
  }

  lemma SpacedFront(d: string, rest: string)
    requires IsDecimal(d) && (rest == "" || !('0' <= rest[0] <= '9'))
    ensures EatSpaced(SPACE + (d + rest)) == Some((Value(d, 10), rest))
  {
    assert (SPACE + (d + rest))[|SPACE|..] == d + rest;
    DecimalFront(d, rest);
  }

  lemma TermsFront(tid: nat, uid: nat, t: string, d: string, last: string)
    requires IsToken(t) && IsDecimal(d) && last == SPACE + d
    ensures ReadTerms(tid, uid, SPACE + (t + last)) == if ArmLimits(tid, uid, Value(d, 10)) then Some(Arm(tid, uid, Value(t, 16), Value(d, 10))) else None
  {
    assert d + "" == d;
    SpacedFront(d, "");
    TokenFront(t, last);
    assert (SPACE + (t + last))[|SPACE|..] == t + last;
  }

  /** Every spelling of an arm command within the limits is read as that command, and every
      other one is refused. */
  lemma ReadArmFront(a: string, b: string, t: string, d: string)
    requires IsDecimal(a) && IsDecimal(b) && IsToken(t) && IsDecimal(d)
    ensures ReadArm(ArmText(a, b, t, d)) ==
            if ArmLimits(Value(a, 10), Value(b, 10), Value(d, 10)) then Some(Arm(Value(a, 10), Value(b, 10), Value(t, 16), Value(d, 10))) else None
  {
    var terms := SPACE + (t + (SPACE + d));
    TermsFront(Value(a, 10), Value(b, 10), t, d, SPACE + d);
    UidFront(a, b, terms);
  }

  lemma UidFront(a: string, b: string, terms: string)
    requires IsDecimal(a) && IsDecimal(b) && SPACE <= terms
    ensures ReadArm(a + (SPACE + (b + terms))) == ReadTerms(Value(a, 10), Value(b, 10), terms)
  {
    var rest := SPACE + (b + terms);
    SpacedFront(b, terms);
    DecimalFront(a, rest);
  }

  lemma SpacedBack(s: string) returns (d: string)
    requires EatSpaced(s).Some?
    ensures IsDecimal(d) && EatSpaced(s).value.0 == Value(d, 10) && s == SPACE + (d + EatSpaced(s).value.1)
  {
    var rest := s[|SPACE|..];
    DecimalBack(rest);
    d := rest[..DigitRun(rest)];
    assert s == SPACE + rest;
  }

  lemma TermsBack(tid: nat, uid: nat, s: string) returns (t: string, d: string)
    requires ReadTerms(tid, uid, s).Some?
    ensures IsToken(t) && IsDecimal(d) && s == SPACE + (t + (SPACE + d))
    ensures ReadTerms(tid, uid, s).value == Arm(tid, uid, Value(t, 16), Value(d, 10)) && ArmLimits(tid, uid, Value(d, 10))
  {
    var rest := s[|SPACE|..];
    t := rest[..TOKEN];
    var after := rest[TOKEN..];
    d := SpacedBack(after);
    assert d + "" == d;
    assert rest == t + after && s == SPACE + rest;
  }

  /** Whatever is read as an arm command is a spelling of it. */
  lemma ReadArmBack(s: string) returns (a: string, b: string, t: string, d: string)
    requires ReadArm(s).Some?
    ensures ArmSpelling(ARM + s, a, b, t, d, ReadArm(s).value)
  {
    DecimalBack(s);
    a := s[..DigitRun(s)];
    var s1 := EatDecimal(s).value.1;
    b := SpacedBack(s1);
    var s2 := EatSpaced(s1).value.1;
    t, d := TermsBack(Value(a, 10), Value(b, 10), s2);
  }

  // ---------------------------------------------------------------------------
  // vpnhide_diag_parse_command
  // ---------------------------------------------------------------------------

  /** What follows the prefix. */
  function ReadBody(s: string): Option<Command> {
    if ARM <= s then ReadArm(s[|ARM|..])
    else if ACTIVATE <= s then
      var n := ReadGrant(s[|ACTIVATE|..]);
      if n.Some? then Some(Activate(n.value)) else None
    else if REVOKE <= s then
      var n := ReadGrant(s[|REVOKE|..]);
      if n.Some? then Some(Revoke(n.value)) else None
    else None
  }

  function ReadCommand(input: string): Option<Command> {
    if 0 < |input| <= COMMAND_BYTES && input[|input| - 1] == '\n' && PREFIX <= input[..|input| - 1]
    then ReadBody(input[|PREFIX|..|input| - 1]) else None
  }

  lemma GrantBack(s: string)
    ensures ReadGrant(s).Some? <==> IsToken(s)
    ensures ReadGrant(s).Some? ==> ReadGrant(s).value == Value(s, 16)
  {
    if |s| == TOKEN {
      assert s[..TOKEN] == s && s[TOKEN..] == "";
    }
  }

  lemma WordsApart(s: string)
    ensures !(ARM <= s && ACTIVATE <= s) && !(ARM <= s && REVOKE <= s) && !(ACTIVATE <= s && REVOKE <= s)
  {
    assert ARM <= s ==> s[0] == 'a' && s[1] == 'r';
    assert ACTIVATE <= s ==> s[0] == 'a' && s[1] == 'c';
    assert REVOKE <= s ==> s[0] == 'r';
  }

  lemma BodySound(s: string)
    requires ReadBody(s).Some?
    ensures Spells(s, ReadBody(s).value)
  {
    if ARM <= s {
      var a, b, t, d := ReadArmBack(s[|ARM|..]);
      assert ARM + s[|ARM|..] == s;
    } else if ACTIVATE <= s {
      GrantBack(s[|ACTIVATE|..]);
      assert ACTIVATE + s[|ACTIVATE|..] == s;
    } else {
      GrantBack(s[|REVOKE|..]);
      assert REVOKE + s[|REVOKE|..] == s;
    }
  }

  lemma BodyComplete(s: string, c: Command)
    requires Spells(s, c)
    ensures ReadBody(s) == Some(c)
  {
    WordsApart(s);
    match c
    case Arm(_, _, _, _) =>
      var a, b, t, d :| ArmSpelling(s, a, b, t, d, c);
      ReadArmFront(a, b, t, d);
      assert s[|ARM|..] == ArmText(a, b, t, d);
    case Activate(nonce) =>
      var t :| s == ACTIVATE + t && IsToken(t) && Value(t, 16) == nonce;
      GrantBack(t);
      assert s[|ACTIVATE|..] == t;
    case Revoke(nonce) =>
      var t :| s == REVOKE + t && IsToken(t) && Value(t, 16) == nonce;
      GrantBack(t);
      assert s[|REVOKE|..] == t;
  }

  /** The reader accepts exactly the grammar, and a text is a spelling of one command. */
  lemma ReadsExactly(input: string, c: Command)
    ensures ReadCommand(input) == Some(c) <==> IsCommand(input, c)
  {
    if IsCommand(input, c) {
      BodyComplete(input[|PREFIX|..|input| - 1], c);
    } else if ReadCommand(input) == Some(c) {
      BodySound(input[|PREFIX|..|input| - 1]);
    }
  }

  // ---------------------------------------------------------------------------
  // The cursor form
  // ---------------------------------------------------------------------------

  method TakeWord(b: string, i: nat, end: nat, word: string) returns (ok: bool, next: nat)
    requires i <= end <= |b|
    ensures ok <==> word <= b[i..end]
    ensures next == if ok then i + |word| else i
    ensures next <= end
  {
    var cursor := i;
    var k: nat := 0;
    while k < |word|
      invariant k <= |word| && cursor == i + k <= end && b[i..cursor] == word[..k]
    {
      if cursor == end || b[cursor] != word[k] {
        assert end - i > k ==> b[i..end][k] != word[k];
        return false, i;
      }
      assert word[..k + 1] == word[..k] + [word[k]] && b[i..cursor + 1] == b[i..cursor] + [b[cursor]];
      cursor, k := cursor + 1, k + 1;
    }
    assert word[..|word|] == word && b[i..end][..|word|] == b[i..cursor];
    return true, cursor;
  }

  /** The 32-bit decimal loop does not wrap: it stops at the first digit that would. */
  method TakeDecimal(b: string, i: nat, end: nat) returns (v: Option<nat>, next: nat)
    requires i <= end <= |b|
    ensures i <= next <= end
    ensures var r := EatDecimal(b[i..end]); if v.Some? then r == Some((v.value, b[next..end])) else r == None
  {
    ghost var s := b[i..end];
    var cursor := i;
    while cursor < end && '0' <= b[cursor] <= '9'
      invariant i <= cursor <= end && forall k :: 0 <= k < cursor - i ==> '0' <= s[k] <= '9'
    {
      cursor := cursor + 1;
    }
    RunIs(s, cursor - i);
    assert s[..cursor - i] == b[i..cursor] && s[cursor - i..] == b[cursor..end];
    v := ReadDigits(b, i, cursor, 10, U32_MAX);
    next := if v.Some? then cursor else i;
  }

  method TakeToken(b: string, i: nat, end: nat) returns (v: Option<nat>, next: nat)
    requires i <= end <= |b|
    ensures i <= next <= end
    ensures var r := EatToken(b[i..end]); if v.Some? then r == Some((v.value, b[next..end])) && v.value <= U64_MAX else r == None
  {
    ghost var s := b[i..end];
    Widths();
    var cursor, value := i, 0;
    v, next := None, i;
    for k := 0 to TOKEN
      invariant cursor == i + k <= end && (forall j :: 0 <= j < k ==> LowerHex(s[j])) && value == Value(s[..k], 16) < Pow(16, k)
    {
      if cursor == end {
        return;
      }
      if !LowerHex(b[cursor]) {
        assert s[k] == b[cursor];
        assert |s| >= TOKEN ==> s[..TOKEN][k] == s[k];
        return;
      }
      ValueStep(s, 16, k);
      value := value * 16 + Digit(b[cursor]);
      cursor := cursor + 1;
    }
    if value != 0 {
      assert s[TOKEN..] == b[cursor..end];
      v, next := Some(value), cursor;
    }
  }

  method TakeSpaced(b: string, i: nat, end: nat) returns (v: Option<nat>, next: nat)
    requires i <= end <= |b|
    ensures i <= next <= end
    ensures var r := EatSpaced(b[i..end]); if v.Some? then r == Some((v.value, b[next..end])) else r == None
  {
    var ok, p := TakeWord(b, i, end, SPACE);
    if !ok {
      return None, i;
    }
    assert b[i..end][|SPACE|..] == b[p..end];
    v, next := TakeDecimal(b, p, end);
  }

  method TakeTerms(b: string, i: nat, end: nat, tid: nat, uid: nat) returns (r: Option<Command>)
    requires i <= end <= |b|
    ensures r == ReadTerms(tid, uid, b[i..end])
  {
    var ok, p := TakeWord(b, i, end, SPACE);
    if !ok {
      return None;
    }
    assert b[i..end][|SPACE|..] == b[p..end];
    var nonce, q := TakeToken(b, p, end);
    if nonce.None? {
      return None;
    }
    var ms, e := TakeSpaced(b, q, end);
    if ms.None? || e != end || !ArmLimits(tid, uid, ms.value) {
      return None;
    }
    r := Some(Arm(tid, uid, nonce.value, ms.value));
  }

  method TakeArm(b: string, i: nat, end: nat) returns (r: Option<Command>)
    requires i <= end <= |b|
    ensures r == ReadArm(b[i..end])
  {
    var tid, p := TakeDecimal(b, i, end);
    if tid.None? {
      return None;
    }
    var uid, q := TakeSpaced(b, p, end);
    if uid.None? {
      return None;
    }
    r := TakeTerms(b, q, end, tid.value, uid.value);
  }

  method TakeGrant(b: string, i: nat, end: nat) returns (r: Option<nat>)
    requires i <= end <= |b|
    ensures r == ReadGrant(b[i..end])
  {
    var v, p := TakeToken(b, i, end);
    r := if p != end then None else v;
  }

  method ParseBody(b: string, i: nat, end: nat) returns (r: Option<Command>)
    requires i <= end <= |b|
    ensures r == ReadBody(b[i..end])
  {
    var ok, p := TakeWord(b, i, end, ARM);
    if ok {
      assert b[i..end][|ARM|..] == b[p..end];
      r := TakeArm(b, p, end);
      return;
    }
    ok, p := TakeWord(b, i, end, ACTIVATE);
    if ok {
      assert b[i..end][|ACTIVATE|..] == b[p..end];
      var v := TakeGrant(b, p, end);
      return if v.Some? then Some(Activate(v.value)) else None;
    }
    ok, p := TakeWord(b, i, end, REVOKE);
    if !ok {
      return None;
    }
    assert b[i..end][|REVOKE|..] == b[p..end];
    var v := TakeGrant(b, p, end);
    r := if v.Some? then Some(Revoke(v.value)) else None;
  }

  method ParseInput(b: string) returns (r: Option<Command>)
    ensures r == ReadCommand(b)
  {
    if |b| == 0 || |b| > COMMAND_BYTES || b[|b| - 1] != '\n' {
      return None;
    }
    var end := |b| - 1;
    assert b[0..end] == b[..end];
    var ok, p := TakeWord(b, 0, end, PREFIX);
    if !ok {
      return None;
    }
    r := ParseBody(b, p, end);
  }

  /** vpnhide_diag_parse_command: a command is returned exactly for its spellings. */
  method ParseCommand(b: string) returns (r: Option<Command>)
    ensures forall c :: r == Some(c) <==> IsCommand(b, c)
  {
    r := ParseInput(b);
    forall c
      ensures r == Some(c) <==> IsCommand(b, c)
    {
      ReadsExactly(b, c);
    }
  }
}
