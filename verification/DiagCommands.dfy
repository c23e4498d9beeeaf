/** The producer of the diagnostic wire: what it writes for a command is read as that command,
    and what it refuses to write no text can say. */
module DiagCommands {
  import opened Options
  import opened Wire
  import opened Printer
  import opened DiagWire

  /** The last k hexadecimal digits of n. */
  function Padded(n: nat, k: nat): (s: string)
    ensures |s| == k
  {
    if k == 0 then "" else Padded(n / 16, k - 1) + [DigitChar(n % 16)]
  }

  /** One line per command; a malformed command or one too long is refused. */
  function Encode(c: Command): Option<string> {
    var line := match c
      case Arm(tid, uid, nonce, ms) =>
        "v1 arm " + DecText(tid) + " " + DecText(uid) + " " + Padded(nonce, 16) + " " + DecText(ms) + "\n"
      case Activate(nonce) => "v1 activate " + Padded(nonce, 16) + "\n"
      case Revoke(nonce) => "v1 revoke " + Padded(nonce, 16) + "\n";
    if c.Arm? && (c.tid == 0 || c.tid > 0x7FFF_FFFF || c.uid == 0 || c.ms == 0 || c.ms > 5000) then None
    else if c.nonce == 0 || |line| > 128 then None
    else Some(line)
  }

  /** Fields in their widths. */
  predicate InWidth(c: Command) {
    c.nonce < 0x1_0000_0000_0000_0000 && (c.Arm? ==> c.tid < 0x1_0000_0000 && c.uid < 0x1_0000_0000 && c.ms < 0x1_0000_0000)
  }

  predicate AllLower(s: string) { forall i :: 0 <= i < |s| ==> LowerHex(s[i]) }

  lemma LowerDigit(d: nat)
    requires d < 16
    ensures LowerHex(DigitChar(d)) && Digit(DigitChar(d)) == d
  {
  }

  lemma {:induction false} PaddedIs(n: nat, k: nat)
    requires n < Pow(16, k)
    ensures AllLower(Padded(n, k)) && Value(Padded(n, k), 16) == n
    decreases k
  {
    if k > 0 {
      DivBelow(n, 16, k);
      PaddedIs(n / 16, k - 1);
      LowerDigit(n % 16);
      ValueOf(Padded(n / 16, k - 1), n % 16, 16);
    }
  }

  lemma PaddedIsToken(nonce: nat)
    requires 0 < nonce < 0x1_0000_0000_0000_0000
    ensures IsToken(Padded(nonce, 16)) && Value(Padded(nonce, 16), 16) == nonce
  {
    Widths();
    PaddedIs(nonce, 16);
  }

  lemma DecIsDecimal(v: nat)
    requires v <= U32_MAX
    ensures IsDecimal(DecText(v)) && Value(DecText(v), 10) == v && |DecText(v)| <= 12
  {
    DecRoundTrip(v, U32_MAX);
    DigitTextValue(v, 10);
    assert Pow(10, 6) == 1_000_000;
    PowAdd(10, 6, 6);
    DigitTextLength(v, 10, 12);
  }

  lemma Regroup(a: string, b: string, c: string)
    ensures a + b + c == a + (b + c)
  {
  }

  /** The same text, grouped from the right. */
  lemma ArmLayout(word: string, a: string, b: string, t: string, d: string, end: string)
    ensures word + a + SPACE + b + SPACE + t + SPACE + d + end == word + ArmText(a, b, t, d) + end
  {
    Regroup(word + a + SPACE + b + SPACE + t, SPACE, d);
    Regroup(word + a + SPACE + b + SPACE, t, SPACE + d);
    Regroup(word + a + SPACE + b, SPACE, t + (SPACE + d));
    Regroup(word + a + SPACE, b, SPACE + (t + (SPACE + d)));
    Regroup(word + a, SPACE, b + (SPACE + (t + (SPACE + d))));
    Regroup(word, a, SPACE + (b + (SPACE + (t + (SPACE + d)))));
  }

  lemma Enclosed(prefix: string, body: string, text: string)
    requires text == prefix + body + "\n"
    ensures |text| > 0 && text[|text| - 1] == '\n' && prefix <= text[..|text| - 1] && text[|prefix|..|text| - 1] == body
  {
    assert text[..|text| - 1] == prefix + body;
  }

  lemma GrantIsCommand(c: Command, word: string, t: string, text: string)
    requires IsToken(t) && Value(t, 16) == c.nonce && text == PREFIX + (word + t) + "\n" && |text| <= 128
    requires (c.Activate? && word == ACTIVATE) || (c.Revoke? && word == REVOKE)
    ensures IsCommand(text, c)
  {
    Enclosed(PREFIX, word + t, text);
  }

  lemma ArmIsCommand(c: Command, a: string, b: string, t: string, d: string, text: string)
    requires c.Arm? && ArmSpelling(ARM + ArmText(a, b, t, d), a, b, t, d, c) && |text| <= 128
    requires text == PREFIX + (ARM + ArmText(a, b, t, d)) + "\n"
    ensures IsCommand(text, c)
  {
    Enclosed(PREFIX, ARM + ArmText(a, b, t, d), text);
  }

  /** Nothing that is refused could be said. */
  lemma RefusedIsUnsayable(c: Command, input: string)
    requires Encode(c).None? && InWidth(c)
    ensures !IsCommand(input, c)
  {
    if c.Arm? {
      if c.tid != 0 && c.tid <= 0x7FFF_FFFF && c.uid != 0 && c.ms != 0 && c.ms <= 5000 && c.nonce != 0 {
        ArmFits(c);
      }
    }
  }

  lemma ArmFits(c: Command)
    requires c.Arm? && InWidth(c)
    ensures |"v1 arm " + DecText(c.tid) + " " + DecText(c.uid) + " " + Padded(c.nonce, 16) + " " + DecText(c.ms) + "\n"| <= 128
  {
    DecIsDecimal(c.tid);
    DecIsDecimal(c.uid);
    DecIsDecimal(c.ms);
  }

  lemma ArmEncodes(c: Command)
    requires c.Arm? && InWidth(c) && Encode(c).Some?
    ensures IsCommand(Encode(c).value, c)
  {
    var a, b, t, d := DecText(c.tid), DecText(c.uid), Padded(c.nonce, 16), DecText(c.ms);
    DecIsDecimal(c.tid);
    DecIsDecimal(c.uid);
    DecIsDecimal(c.ms);
    PaddedIsToken(c.nonce);
    ArmLayout("v1 arm ", a, b, t, d, "\n");
    Words(ARM, "v1 arm ", ArmText(a, b, t, d));
    ArmIsCommand(c, a, b, t, d, Encode(c).value);
  }

  lemma Words(word: string, both: string, rest: string)
    requires both == PREFIX + word
    ensures both + rest + "\n" == PREFIX + (word + rest) + "\n"
  {
    Regroup(PREFIX, word, rest);
  }

  lemma GrantEncodes(c: Command)
    requires !c.Arm? && InWidth(c) && Encode(c).Some?
    ensures IsCommand(Encode(c).value, c)
  {
    var t := Padded(c.nonce, 16);
    PaddedIsToken(c.nonce);
    if c.Activate? {
      Words(ACTIVATE, "v1 activate ", t);
      GrantIsCommand(c, ACTIVATE, t, Encode(c).value);
    } else {
      Words(REVOKE, "v1 revoke ", t);
      GrantIsCommand(c, REVOKE, t, Encode(c).value);
    }
  }

  /** What is written for a command is read as that command, and a command is written exactly
      when some text says it. */
  lemma EncodedReadsBack(c: Command)
    requires InWidth(c)
    ensures Encode(c).Some? ==> ReadCommand(Encode(c).value) == Some(c)
    ensures Encode(c).Some? <==> exists input :: IsCommand(input, c)
  {
    if Encode(c).Some? {
      if c.Arm? {
        ArmEncodes(c);
      } else {
        GrantEncodes(c);
      }
      ReadsExactly(Encode(c).value, c);
    } else {
      forall input
        ensures !IsCommand(input, c)
      {
        RefusedIsUnsayable(c, input);
      }
    }
  }
}
