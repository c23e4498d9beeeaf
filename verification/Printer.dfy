/** The bounded output cursor and its number printers, and why every number printed is
    read back exactly by the wire's own readers. */
module Printer {
  import opened Options
  import opened Wire

  function DigitChar(d: nat): char
    requires d < 16
  {
    if d < 10 then '0' + d as char else 'a' + (d - 10) as char
  }

  /** The digits of v, most significant first, without leading zeros. */
  function DigitText(v: nat, base: nat): string
    requires 2 <= base <= 16
    decreases v
  {
    if v < base then [DigitChar(v)] else DigitText(v / base, base) + [DigitChar(v % base)]
  }

  function HexText(v: nat): string { "0x" + DigitText(v, 16) }

  function DecText(v: nat): string { DigitText(v, 10) }

  lemma DigitRoundTrip(d: nat)
    requires d < 16
    ensures Digit(DigitChar(d)) == d && !IsSep(DigitChar(d)) && IsAscii(DigitChar(d)) && DigitChar(d) != '\r'
  {
  }

  predicate TokenChars(s: string) {
    forall i :: 0 <= i < |s| ==> !IsSep(s[i]) && IsAscii(s[i])
  }

  lemma ValueAppend(s: string, c: char, base: nat)
    ensures Value(s + [c], base) == Value(s, base) * base + Digit(c)
  {
    assert (s + [c])[..|s|] == s;
  }

  lemma DivMod(v: nat, base: nat)
    requires base >= 2
    ensures v / base * base + v % base == v && v % base < base && (v > 0 ==> v / base < v)
    ensures v < base <==> v / base == 0
    ensures v < base ==> v % base == v
  {
  }

  lemma DigitStep(s: string, d: nat, base: nat)
    requires d < base <= 16 && Digits(s, base) && TokenChars(s)
    ensures Digits(s + [DigitChar(d)], base) && TokenChars(s + [DigitChar(d)])
  {
    DigitRoundTrip(d);
  }

  /** Printed digits are digits of that base, and plain token characters. */
  lemma {:induction false} DigitTextDigits(v: nat, base: nat)
    requires 2 <= base <= 16
    ensures DigitText(v, base) != "" && Digits(DigitText(v, base), base) && TokenChars(DigitText(v, base))
    decreases v
  {
    if v >= base {
      var q, r := v / base, v % base;
      assert q < v && r < base by { DivMod(v, base); }
      DigitTextDigits(q, base);
      DigitStep(DigitText(q, base), r, base);
    } else {
      DigitStep("", v, base);
      assert "" + [DigitChar(v)] == [DigitChar(v)];
    }
  }

  /** Printed digits have the printed value. */
  lemma {:induction false} DigitTextValue(v: nat, base: nat)
    requires 2 <= base <= 16
    ensures Value(DigitText(v, base), base) == v
    decreases v
  {
    if v >= base {
      var q, r := v / base, v % base;
      assert q < v && r < base && q * base + r == v by { DivMod(v, base); }
      DigitTextValue(q, base);
      ValueOf(DigitText(q, base), r, base);
    } else {
      ValueOf("", v, base);
      assert "" + [DigitChar(v)] == [DigitChar(v)];
    }
  }

  lemma ValueOf(s: string, d: nat, base: nat)
    requires d < 16
    ensures Value(s + [DigitChar(d)], base) == Value(s, base) * base + d
  {
    DigitRoundTrip(d);
    ValueAppend(s, DigitChar(d), base);
  }

  /** Reading back what put_hex wrote returns the original, in the field's width. */
  lemma HexRoundTrip(v: nat, max: nat)
    ensures Prefixed(HexText(v), max) == if v <= max then Some(v) else None
  {
    DigitTextDigits(v, 16);
    DigitTextValue(v, 16);
    assert HexText(v)[2..] == DigitText(v, 16);
  }

  lemma DecRoundTrip(v: nat, max: nat)
    ensures Numeral(DecText(v), 10, max) == if v <= max then Some(v) else None
  {
    DigitTextDigits(v, 10);
    DigitTextValue(v, 10);
  }

  function Pow(b: nat, e: nat): nat { if e == 0 then 1 else b * Pow(b, e - 1) }

  lemma Widths()
    ensures Pow(16, 16) == U64_MAX + 1 && Pow(10, 24) > U64_MAX && Pow(16, 8) == U32_MAX + 1
  {
    assert Pow(16, 4) == 0x1_0000;
    assert Pow(16, 8) == 0x1_0000 * 0x1_0000 by { PowAdd(16, 4, 4); }
    PowAdd(16, 8, 8);
    assert Pow(10, 6) == 1_000_000;
    assert Pow(10, 12) == 1_000_000_000_000 by { PowAdd(10, 6, 6); }
    PowAdd(10, 12, 12);
  }

  lemma {:induction false} PowAdd(b: nat, m: nat, n: nat)
    ensures Pow(b, m + n) == Pow(b, m) * Pow(b, n)
  {
    if m != 0 {
      PowAdd(b, m - 1, n);
      assert b * (Pow(b, m - 1) * Pow(b, n)) == b * Pow(b, m - 1) * Pow(b, n);
    }
  }

  lemma MulCancel(q: nat, p: nat, b: nat)
    requires q * b < p * b
    ensures q < p
  {
  }

  lemma DivBelow(v: nat, b: nat, e: nat)
    requires b >= 2 && e >= 1 && v < Pow(b, e)
    ensures v / b < Pow(b, e - 1)
  {
    var q, p := v / b, Pow(b, e - 1);
    assert q * b <= v by { DivMod(v, b); }
    assert Pow(b, e) == p * b;
    MulCancel(q, p, b);
  }

  /** k digits are enough for numbers below base^k. */
  lemma {:induction false} DigitTextLength(v: nat, base: nat, k: nat)
    requires 2 <= base <= 16 && k >= 1 && v < Pow(base, k)
    ensures 1 <= |DigitText(v, base)| <= k
    decreases k
  {
    if v >= base {
      assert k > 1 by { assert Pow(base, 1) == base * Pow(base, 0); }
      DivBelow(v, base, k);
      DivMod(v, base);
      DigitTextLength(v / base, base, k - 1);
    }
  }

  function Reverse(s: string): string { if s == "" then "" else Reverse(s[1..]) + [s[0]] }

  lemma {:induction false} ReverseAppend(s: string, c: char)
    ensures Reverse(s + [c]) == [c] + Reverse(s)
  {
    if s != "" {
      assert (s + [c])[1..] == s[1..] + [c];
      ReverseAppend(s[1..], c);
    } else {
      assert s + [c] == [c];
    }
  }

  /** Nothing for zero, else the digits. */
  function Pending(v: nat, base: nat): string
    requires 2 <= base <= 16
  {
    if v == 0 then "" else DigitText(v, base)
  }

  lemma PendingStep(v: nat, base: nat, q: nat, r: nat)
    requires 2 <= base <= 16 && v > 0 && q == v / base && r == v % base
    ensures r < base && q < v && Pending(v, base) == Pending(q, base) + [DigitChar(r)]
  {
    DivMod(v, base);
  }

  /** Split off the last digit. */
  method LastDigit(v: nat, base: nat, ghost room: nat) returns (q: nat, c: char)
    requires 2 <= base <= 16 && 0 < v < Pow(base, room)
    ensures room > 0 && q < Pow(base, room - 1) && q < v
    ensures Pending(v, base) == Pending(q, base) + [c]
  {
    q := v / base;
    PendingStep(v, base, q, v % base);
    DivBelow(v, base, room);
    c := DigitChar(v % base);
  }

  /** Least significant digit first into a scratch of `size` characters, never past it. */
  method ScratchDigits(v0: nat, base: nat, size: nat) returns (tmp: array<char>, n: nat)
    requires 2 <= base <= 16 && v0 < Pow(base, size)
    ensures fresh(tmp) && n <= tmp.Length == size && Reverse(tmp[..n]) == Pending(v0, base)
  {
    tmp := new char[size](_ => '0');
    var v: nat := v0;
    n := 0;
    ghost var full, todo := Pending(v0, base), Pending(v0, base);
    assert tmp[..0] == "";
    while v != 0
      invariant n <= size && v < Pow(base, size - n)
      invariant todo == Pending(v, base) && full == todo + Reverse(tmp[..n])
      decreases v
    {
      var q, c := LastDigit(v, base, size - n);
      ghost var before := tmp[..n];
      tmp[n] := c;
      assert tmp[..n + 1] == before + [c];
      ReverseAppend(before, c);
      v, n := q, n + 1;
      todo := Pending(q, base);
    }
  }

  /** vpnhide_buf: `len` counts the whole intended text, but only the first `cap` bytes are
      ever stored. `text` is that intended text. */
  class Buf {
    const p: array<char>
    var len: nat
    ghost var text: string

    ghost predicate Valid()
      reads this, p
    {
      len == |text| && forall i :: 0 <= i < |text| && i < p.Length ==> p[i] == text[i]
    }

    constructor (p: array<char>)
      ensures Valid() && this.p == p && text == ""
    {
      this.p := p;
      len := 0;
      text := "";
    }

    method Putc(c: char)
      requires Valid()
      modifies this, p
      ensures Valid() && text == old(text) + [c]
    {
      if len < p.Length {
        p[len] := c;
      }
      len := len + 1;
      text := text + [c];
    }

    method Puts(s: string)
      requires Valid()
      modifies this, p
      ensures Valid() && text == old(text) + s
    {
      for i := 0 to |s|
        invariant Valid() && text == old(text) + s[..i]
      {
        Putc(s[i]);
        assert s[..i + 1] == s[..i] + [s[i]];
      }
      assert s[..|s|] == s;
    }

    /** The reversed-digit scratch loop: it stays inside a scratch of `size` characters. */
    method PutDigits(v0: nat, base: nat, size: nat)
      requires Valid() && 2 <= base <= 16 && v0 < Pow(base, size)
      modifies this, p
      ensures Valid() && text == old(text) + DigitText(v0, base)
    {
      if v0 == 0 {
        Putc('0');
        return;
      }
      var tmp, n := ScratchDigits(v0, base, size);
      ghost var digits := tmp[..n];
      assert digits[..n] == digits;
      while n != 0
        invariant 0 <= n <= |digits| <= tmp.Length && tmp[..|digits|] == digits && Valid() && fresh(tmp)
        invariant text + Reverse(digits[..n]) == old(text) + Reverse(digits)
      {
        n := n - 1;
        assert digits[..n + 1] == digits[..n] + [tmp[n]];
        ReverseAppend(digits[..n], tmp[n]);
        Putc(tmp[n]);
      }
    }

    method PutDec(v: nat)
      requires Valid() && v <= U64_MAX
      modifies this, p
      ensures Valid() && text == old(text) + DecText(v)
    {
      Widths();
      PutDigits(v, 10, 24);
    }

    method PutHex(v: nat)
      requires Valid() && v <= U64_MAX
      modifies this, p
      ensures Valid() && text == old(text) + HexText(v)
    {
      Puts("0x");
      Widths();
      PutDigits(v, 16, 16);
    }
  }
}
