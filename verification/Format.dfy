/** The text builder: it writes into a caller's buffer, counts what it is given, and never writes past the
    space that is left before the terminator.  Its meaning is an unbounded string, `text`. */
module Format {
  import opened Common

  // ----- numerals -----

  function Digit(d: nat): char
    requires d < 10
  {
    "0123456789"[d]
  }

  function Decimal(v: nat): string {
    if v < 10 then [Digit(v)] else Decimal(v / 10) + [Digit(v % 10)]
  }

  function DigitValue(c: char): nat {
    if '0' <= c <= '9' then c as int - '0' as int else 0
  }

  // The number that a string of digits stands for, most significant first.
  function Parse(s: string): nat {
    if s == [] then 0 else 10 * Parse(s[..|s| - 1]) + DigitValue(s[|s| - 1])
  }

  lemma DigitExact(d: nat)
    requires d < 10
    ensures DigitValue(Digit(d)) == d && '0' <= Digit(d) <= '9'
  {
  }

  lemma {:induction false} DecimalRoundTrip(v: nat)
    ensures Parse(Decimal(v)) == v
  {
    DigitExact(v % 10);
    if v >= 10 {
      DecimalRoundTrip(v / 10);
      assert Decimal(v)[..|Decimal(v)| - 1] == Decimal(v / 10);
    } else {
      DigitExact(v);
      assert Decimal(v)[..0] == [];
    }
  }

  predicate AllDigits(s: string) { forall i :: 0 <= i < |s| ==> '0' <= s[i] <= '9' }

  // s is the decimal numeral of v: digits only, no leading zero, and the value is v.
  predicate IsNumeral(s: string, v: nat) {
    s != [] && AllDigits(s) && (|s| > 1 ==> s[0] != '0') && Parse(s) == v
  }

  lemma {:induction false} DecimalDigits(v: nat)
    ensures Decimal(v) != [] && AllDigits(Decimal(v)) && (v > 0 ==> Decimal(v)[0] != '0')
  {
    DigitExact(v % 10);
    if v >= 10 { DecimalDigits(v / 10); } else { DigitExact(v); }
  }

  lemma DecimalIsNumeral(v: nat)
    ensures IsNumeral(Decimal(v), v)
  {
    DecimalDigits(v);
    DecimalRoundTrip(v);
  }

  lemma {:induction false} ParsePositive(s: string)
    requires s != [] && AllDigits(s) && s[0] != '0'
    ensures Parse(s) > 0
  {
    if |s| > 1 { ParsePositive(s[..|s| - 1]); } else { assert s[..0] == []; }
  }

  // Without its last digit a numeral is that of a tenth of the number.
  lemma NumeralFront(s: string, v: nat)
    requires IsNumeral(s, v)
    ensures (|s| > 1 <==> v >= 10) && (|s| > 1 ==> IsNumeral(s[..|s| - 1], v / 10))
    ensures s[|s| - 1] as int == '0' as int + v % 10
  {
    LastDigit(s);
    if |s| > 1 { ParsePositive(s[..|s| - 1]); } else { assert s[..0] == []; }
  }

  // There is one numeral for each number, so what renders a number can only render it as that.
  lemma {:induction false} NumeralUnique(s: string, t: string, v: nat)
    requires IsNumeral(s, v) && IsNumeral(t, v)
    ensures s == t
  {
    hide Parse, AllDigits;
    NumeralFront(s, v);
    NumeralFront(t, v);
    if |s| > 1 { NumeralUnique(s[..|s| - 1], t[..|t| - 1], v / 10); }
    assert s == s[..|s| - 1] + [s[|s| - 1]] && t == t[..|t| - 1] + [t[|t| - 1]];
  }

  lemma LastDigit(s: string)
    requires s != [] && AllDigits(s)
    ensures Parse(s) / 10 == Parse(s[..|s| - 1]) && Parse(s) % 10 == DigitValue(s[|s| - 1])
    ensures s[|s| - 1] as int == '0' as int + Parse(s) % 10
  {
  }

  function Pow10(k: nat): (p: nat)
    ensures p > 0
  {
    if k == 0 then 1 else 10 * Pow10(k - 1)
  }

  // A number has at most k digits exactly when it is below ten to the k.
  lemma {:induction false} DecimalLength(v: nat, k: nat)
    requires k > 0
    ensures |Decimal(v)| <= k <==> v < Pow10(k)
    ensures |Decimal(v)| > 0
  {
    if v < 10 {
      assert Pow10(k) >= 10 by { if k > 1 { assert Pow10(k - 1) >= 1; } }
    } else if k == 1 {
      DecimalLength(v / 10, 1);
      assert Pow10(1) == 10 by { assert Pow10(0) == 1; }
    } else {
      DecimalLength(v / 10, k - 1);
      assert v / 10 < Pow10(k - 1) <==> v < 10 * Pow10(k - 1);
    }
  }

  lemma Fits20()
    ensures WORD64 <= Pow10(20)
  {
    assert Pow10(5) == 100000 by { assert Pow10(0) == 1; assert Pow10(2) == 100; }
    PowSum(5, 5);
    PowSum(10, 10);
  }

  lemma {:induction false} PowSum(a: nat, b: nat)
    ensures Pow10(a + b) == Pow10(a) * Pow10(b)
  {
    if a > 0 {
      PowSum(a - 1, b);
      Tenfold(Pow10(a - 1), Pow10(b));
    }
  }

  lemma Tenfold(x: nat, y: nat)
    ensures 10 * (x * y) == (10 * x) * y
  {
  }

  lemma AtMost20(value: nat)
    requires value < WORD64
    ensures 1 <= |Decimal(value)| <= 20
  {
    Fits20();
    DecimalLength(value, 20);
  }

  // The digits of v that are still to come; none for 0.
  function Front(v: nat): string { if v == 0 then [] else Decimal(v) }

  lemma FrontStep(v: nat)
    requires v > 0
    ensures Front(v) == Front(v / 10) + [Digit(v % 10)]
  {
  }

  lemma Reassociate(text: string, front: string, shorter: string, c: char, tail: string)
    requires text == front + tail && front == shorter + [c]
    ensures text == shorter + ([c] + tail)
  {
  }

  method Prepend(buf: array<char>, p: nat, c: char)
    requires 0 < p <= buf.Length
    modifies buf
    ensures buf[p - 1..] == [c] + old(buf[p..])
  {
    buf[p - 1] := c;
  }

  // render_unsigned, into the end of a temporary buffer of twenty characters.
  method RenderUnsigned(value: nat) returns (buf: array<char>, len: nat)
    requires value < WORD64
    ensures fresh(buf) && buf.Length == 20 && 1 <= len <= 20
    ensures buf[20 - len..] == Decimal(value) && IsNumeral(buf[20 - len..], value)
  {
    buf := new char[20](_ => ' ');
    var p: nat := 20;
    AtMost20(value);
    if value == 0 {
      p := p - 1;
      buf[p] := '0';
      assert buf[19..] == Decimal(0);
    } else {
      var v: nat := value;
      ghost var text, front := Decimal(value), Decimal(value);
      while v > 0
        invariant p <= 20 && front == Front(v) && text == front + buf[p..] && 1 <= |text| <= 20
      {
        ghost var tail, shorter, c := buf[p..], Front(v / 10), Digit(v % 10);
        FrontStep(v);
        Reassociate(text, front, shorter, c, tail);
        Prepend(buf, p, Digit(v % 10));
        p, v, front := p - 1, v / 10, shorter;
      }
      assert front + buf[p..] == buf[p..];
    }
    len := 20 - p;
    DecimalIsNumeral(value);
  }

  // ----- signed numbers -----

  const INT64_MIN := -0x8000_0000_0000_0000
  const INT64_MAX := 0x7FFF_FFFF_FFFF_FFFF

  function Signed(v: int): string { if v < 0 then "-" + Decimal(-v) else Decimal(v) }

  function ParseSigned(s: string): int {
    if s != [] && s[0] == '-' then 0 - Parse(s[1..]) else Parse(s)
  }

  // A minus sign exactly for negative numbers, and the numeral of the absolute value; and it parses back.
  lemma SignedRoundTrip(v: int)
    ensures ParseSigned(Signed(v)) == v
    ensures if v < 0 then Signed(v) != [] && Signed(v)[0] == '-' && IsNumeral(Signed(v)[1..], -v)
            else IsNumeral(Signed(v), v)
  {
    var m: nat := if v < 0 then -v else v;
    DecimalIsNumeral(m);
    if v < 0 { assert Signed(v)[1..] == Decimal(m); }
  }

  // ----- padding -----

  function Repeat(c: char, n: nat): string { seq(n, _ => c) }

  function PadLeft(d: string, width: nat, pad: char): string {
    if |d| < width then Repeat(pad, width - |d|) + d else d
  }

  function Padded(v: nat, width: nat, pad: char): string { PadLeft(Decimal(v), width, pad) }

  // The string ends in the numeral of v, whole; what comes before it is filler, just enough to reach the width.
  lemma PaddedExact(v: nat, width: nat, pad: char) returns (k: nat)
    ensures var r := Padded(v, width, pad);
      && k <= |r| && |r| >= width && (k > 0 ==> |r| == width)
      && IsNumeral(r[k..], v) && forall i :: 0 <= i < k ==> r[i] == pad
  {
    DecimalIsNumeral(v);
    var r, d := Padded(v, width, pad), Decimal(v);
    k := |r| - |d|;
    assert r[k..] == d;
  }

  // ----- the builder -----

  lemma AfterSign(text: string, digits: string)
    ensures text + ['-'] + digits == text + ("-" + digits)
  {
  }

  // The buffer begins with the text, or as much of it as leaves room for the terminator, and the terminator.
  predicate Terminated(buffer: string, text: string)
    requires |buffer| > 0
  {
    var k := Min(|text|, |buffer| - 1);
    buffer[..k] == text[..k] && buffer[k] == '\0'
  }

  class Builder {
    const buffer: array<char>
    const capacity: nat       // without the place of the terminator
    var used: nat
    var overflow: bool
    ghost var text: string    // everything that has been added

    ghost predicate Valid()
      reads this, buffer
    {
      && capacity == (if buffer.Length > 0 then buffer.Length - 1 else 0) && used == |text|
      && (overflow <==> |text| > capacity)
      && forall i :: 0 <= i < |text| && i < capacity ==> buffer[i] == text[i]
    }

    // lc_format_start
    constructor (target: array<char>)
      ensures Valid() && buffer == target && text == ""
    {
      buffer, capacity := target, if target.Length > 0 then target.Length - 1 else 0;
      used, overflow, text := 0, false, "";
    }

    method Put(c: char)
      requires Valid()
      modifies this`used, this`overflow, this`text, buffer
      ensures Valid() && text == old(text) + [c]
    {
      if used < capacity {
        buffer[used] := c;
      } else {
        overflow := true;
      }
      used := used + 1;
      text := text + [c];
    }

    method PutBytes(s: array<char>, from: nat, len: nat)
      requires Valid() && from + len <= s.Length && s != buffer
      modifies this`used, this`overflow, this`text, buffer
      ensures Valid() && text == old(text) + s[from..from + len]
    {
      for i := 0 to len
        invariant Valid() && text == old(text) + s[from..from + i]
      {
        Put(s[from + i]);
      }
    }

    method AddRepeat(c: char, count: nat)
      requires Valid()
      modifies this`used, this`overflow, this`text, buffer
      ensures Valid() && text == old(text) + Repeat(c, count)
    {
      for i := 0 to count
        invariant Valid() && text == old(text) + Repeat(c, i)
      {
        Put(c);
      }
    }

    method AddUnsigned(value: nat)
      requires Valid() && value < WORD64
      modifies this`used, this`overflow, this`text, buffer
      ensures Valid() && text == old(text) + Decimal(value)
    {
      hide Decimal;
      var buf, len := RenderUnsigned(value);
      PutBytes(buf, 20 - len, len);
      assert buf[20 - len..] == buf[20 - len..20 - len + len];
    }

    method AddSigned(value: int)
      requires Valid() && INT64_MIN <= value <= INT64_MAX
      modifies this`used, this`overflow, this`text, buffer
      ensures Valid() && text == old(text) + Signed(value)
    {
      if value < 0 {
        Put('-');
        AddUnsigned(-(value + 1) + 1);
        AfterSign(old(text), Decimal(-value));
      } else {
        AddUnsigned(value);
      }
    }

    // lc_format_add_string_right
    method AddStringRight(s: array<char>, from: nat, len: nat, width: nat, pad: char)
      requires Valid() && from + len <= s.Length && s != buffer
      modifies this`used, this`overflow, this`text, buffer
      ensures Valid() && text == old(text) + PadLeft(s[from..from + len], width, pad)
    {
      if len < width {
        AddRepeat(pad, width - len);
      }
      PutBytes(s, from, len);
    }

    method AddUnsignedPadded(value: nat, width: nat, pad: char)
      requires Valid() && value < WORD64
      modifies this`used, this`overflow, this`text, buffer
      ensures Valid() && text == old(text) + Padded(value, width, pad)
    {
      hide Decimal;
      var buf, len := RenderUnsigned(value);
      assert buf[20 - len..] == buf[20 - len..20 - len + len];
      AddStringRight(buf, 20 - len, len, width, pad);
    }

    // lc_format_finish: what fits is in the buffer, terminated, and the full length is returned.  `outside` says that
    // the terminator went to a place outside the buffer, which happens exactly if the buffer has no place at all.
    method Finish() returns (n: nat, outside: bool)
      requires Valid()
      modifies buffer
      ensures Valid() && n == |text| && (outside <==> buffer.Length == 0)
      ensures !outside ==> Terminated(buffer[..], text)
    {
      var pos := if used < capacity + 1 then used else capacity;
      outside := pos >= buffer.Length;
      if !outside {
        buffer[pos] := '\0';
      }
      n := used;
    }
  }

  // A buffer without a place: the terminator goes outside.
  method FinishWithoutBuffer() returns (outside: bool)
    ensures outside
  {
    var target := new char[0];
    var fmt := new Builder(target);
    var n;
    n, outside := fmt.Finish();
  }
}
