/** The ISO 8601 form of a broken-down time: what it is made of, that it can be read back, and that its order as text
    is the order in time. */
module Iso8601 {
  import opened Common
  import opened Calendar
  import opened Format

  // A signed field converted to an unsigned 64-bit integer.
  function Unsigned(x: int): (r: nat)
    requires -WORD64 <= x < WORD64
    ensures r < WORD64 && (r == x || r == x + WORD64)
  {
    if x < 0 then x + WORD64 else x
  }

  predicate Int32Fields(dt: DateTime) {
    && IsInt32(dt.year) && IsInt32(dt.month) && IsInt32(dt.day)
    && IsInt32(dt.hour) && IsInt32(dt.minute) && IsInt32(dt.second)
  }

  function Field(x: int, width: nat): string
    requires IsInt32(x)
  {
    Padded(Unsigned(x), width, '0')
  }

  function DateText(dt: DateTime): string
    requires Int32Fields(dt)
  {
    Field(dt.year, 4) + ("-" + (Field(dt.month, 2) + ("-" + Field(dt.day, 2))))
  }

  function ClockText(dt: DateTime): string
    requires Int32Fields(dt)
  {
    Field(dt.hour, 2) + (":" + (Field(dt.minute, 2) + (":" + (Field(dt.second, 2) + "Z"))))
  }

  function Text(dt: DateTime): string
    requires Int32Fields(dt)
  {
    DateText(dt) + ("T" + ClockText(dt))
  }

  method AddField(fmt: Builder, x: int, width: nat, mark: char)
    requires fmt.Valid() && IsInt32(x) && width < WORD32
    modifies fmt, fmt.buffer
    ensures fmt.Valid() && fmt.text == old(fmt.text) + (Field(x, width) + [mark])
  {
    fmt.AddUnsignedPadded(Unsigned(x), width, '0');
    fmt.Put(mark);
  }

  method AddDate(fmt: Builder, dt: DateTime)
    requires fmt.Valid() && Int32Fields(dt)
    modifies fmt, fmt.buffer
    ensures fmt.Valid() && fmt.text == old(fmt.text) + DateText(dt)
  {
    AddField(fmt, dt.year, 4, '-');
    AddField(fmt, dt.month, 2, '-');
    fmt.AddUnsignedPadded(Unsigned(dt.day), 2, '0');
  }

  method AddClock(fmt: Builder, dt: DateTime)
    requires fmt.Valid() && Int32Fields(dt)
    modifies fmt, fmt.buffer
    ensures fmt.Valid() && fmt.text == old(fmt.text) + ClockText(dt)
  {
    ghost var t := fmt.text;
    AddField(fmt, dt.hour, 2, ':');
    AddField(fmt, dt.minute, 2, ':');
    AddField(fmt, dt.second, 2, 'Z');
    ClockGroups(t, Field(dt.hour, 2), Field(dt.minute, 2), Field(dt.second, 2));
  }

  method AddText(fmt: Builder, dt: DateTime)
    requires fmt.Valid() && Int32Fields(dt)
    modifies fmt, fmt.buffer
    ensures fmt.Valid() && fmt.text == old(fmt.text) + Text(dt)
  {
    ghost var t, d, c := fmt.text, DateText(dt), ClockText(dt);
    AddDate(fmt, dt);
    fmt.Put('T');
    AddClock(fmt, dt);
    Regroup(t, d, c);
  }

  lemma ClockGroups(t: string, h: string, m: string, s: string)
    ensures t + (h + [':']) + (m + [':']) + (s + ['Z']) == t + (h + (":" + (m + (":" + (s + "Z")))))
  {
  }

  lemma Regroup(t: string, d: string, c: string)
    ensures t + d + ['T'] + c == t + (d + ("T" + c))
  {
  }

  // ----- what the text says -----

  // Digits of value v, as many as needed and at least `width`.
  predicate IsField(s: string, v: nat, width: nat) {
    AllDigits(s) && Parse(s) == v && |s| >= width && (|s| > width > 0 ==> s[0] != '0')
  }

  lemma {:induction false} ParseZeros(n: nat, d: string)
    ensures Parse(Repeat('0', n) + d) == Parse(d)
    decreases |d|, n
  {
    var r := Repeat('0', n) + d;
    if d != [] {
      assert r[..|r| - 1] == Repeat('0', n) + d[..|d| - 1];
      ParseZeros(n, d[..|d| - 1]);
    } else if n > 0 {
      assert r[..|r| - 1] == Repeat('0', n - 1) + d;
      ParseZeros(n - 1, d);
    }
  }

  lemma FieldReads(x: int, width: nat)
    requires IsInt32(x) && width > 0
    ensures IsField(Field(x, width), Unsigned(x), width)
  {
    var v := Unsigned(x);
    DecimalIsNumeral(v);
    if |Decimal(v)| < width { ParseZeros(width - |Decimal(v)|, Decimal(v)); }
  }

  // The six fields in their order, with the marks of ISO 8601 between them.
  ghost predicate IsIso(t: string, dt: DateTime)
    requires Int32Fields(dt)
  {
    exists y, mo, d, h, mi, s ::
      && IsField(y, Unsigned(dt.year), 4) && IsField(mo, Unsigned(dt.month), 2) && IsField(d, Unsigned(dt.day), 2)
      && IsField(h, Unsigned(dt.hour), 2) && IsField(mi, Unsigned(dt.minute), 2) && IsField(s, Unsigned(dt.second), 2)
      && t == y + "-" + mo + "-" + d + "T" + h + ":" + mi + ":" + s + "Z"
  }

  lemma Flat(y: string, mo: string, d: string, h: string, mi: string, s: string)
    ensures (y + ("-" + (mo + ("-" + d)))) + ("T" + (h + (":" + (mi + (":" + (s + "Z"))))))
         == y + "-" + mo + "-" + d + "T" + h + ":" + mi + ":" + s + "Z"
  {
  }

  // That is the text of a time, whatever its fields hold.
  lemma TextIsIso(dt: DateTime)
    requires Int32Fields(dt)
    ensures IsIso(Text(dt), dt)
  {
    FieldReads(dt.year, 4); FieldReads(dt.month, 2); FieldReads(dt.day, 2);
    FieldReads(dt.hour, 2); FieldReads(dt.minute, 2); FieldReads(dt.second, 2);
    Flat(Field(dt.year, 4), Field(dt.month, 2), Field(dt.day, 2), Field(dt.hour, 2), Field(dt.minute, 2),
         Field(dt.second, 2));
  }

  // lc_time_format_iso8601
  method FormatIso8601(dt: DateTime, buffer: array<char>) returns (n: nat, outside: bool)
    requires Int32Fields(dt)
    modifies buffer
    ensures n == |Text(dt)| && (outside <==> buffer.Length == 0)
    ensures !outside ==> Terminated(buffer[..], Text(dt))
    ensures IsIso(Text(dt), dt)
    // a buffer of 21 holds the whole of a time in the years 0 to 9999, and it can be read back
    ensures InRange(dt) && buffer.Length > 20 ==> n == 20 && ReadsBack(buffer[..20], dt) && buffer[20] == '\0'
  {
    var fmt := new Builder(buffer);
    AddText(fmt, dt);
    assert fmt.text == Text(dt);
    hide IsIso, ReadsBack, Terminated, Text;
    n, outside := fmt.Finish();
    TextIsIso(dt);
    if InRange(dt) && buffer.Length > 20 { WholeText(dt, buffer[..]); }
  }

  lemma WholeText(dt: DateTime, buffer: string)
    requires InRange(dt) && |buffer| > 20 && Terminated(buffer, Text(dt))
    ensures |Text(dt)| == 20 && ReadsBack(buffer[..20], dt) && buffer[20] == '\0'
  {
    IsoPlaces(dt);
    assert Text(dt)[..20] == Text(dt);
  }

  // ----- order -----

  // Strings compared character by character.
  predicate Less(s: string, t: string) {
    if t == [] then false
    else if s == [] then true
    else s[0] < t[0] || (s[0] == t[0] && Less(s[1..], t[1..]))
  }

  lemma {:induction false} LessConcat(a: string, b: string, s: string, t: string)
    requires |a| == |b|
    ensures Less(a + s, b + t) <==> Less(a, b) || (a == b && Less(s, t))
  {
    if a == [] {
      assert a + s == s && b + t == t;
    } else {
      assert (a + s)[1..] == a[1..] + s && (b + t)[1..] == b[1..] + t;
      LessConcat(a[1..], b[1..], s, t);
      assert a == [a[0]] + a[1..] && b == [b[0]] + b[1..];
    }
  }

  // Numerals of a fixed width, from the last digit backwards.
  function Fixed(v: nat, width: nat): string
    requires v < Pow10(width)
  {
    if width == 0 then [] else Fixed(v / 10, width - 1) + [Digit(v % 10)]
  }

  lemma {:induction false} FixedLength(v: nat, width: nat)
    requires v < Pow10(width)
    ensures |Fixed(v, width)| == width
  {
    if width > 0 { FixedLength(v / 10, width - 1); }
  }

  lemma DigitOrder(d: nat, e: nat)
    requires d < 10 && e < 10
    ensures Less([Digit(d)], [Digit(e)]) <==> d < e
    ensures [Digit(d)] == [Digit(e)] <==> d == e
  {
    assert Less([Digit(d)], [Digit(e)]) <==> Digit(d) < Digit(e);
  }

  lemma {:induction false} FixedOrder(v: nat, u: nat, width: nat)
    requires v < Pow10(width) && u < Pow10(width)
    ensures Less(Fixed(v, width), Fixed(u, width)) <==> v < u
    ensures Fixed(v, width) == Fixed(u, width) <==> v == u
  {
    if width > 0 {
      FixedOrder(v / 10, u / 10, width - 1);
      FixedLength(v / 10, width - 1);
      FixedLength(u / 10, width - 1);
      LessConcat(Fixed(v / 10, width - 1), Fixed(u / 10, width - 1), [Digit(v % 10)], [Digit(u % 10)]);
      DigitOrder(v % 10, u % 10);
      assert Fixed(v, width)[..width - 1] == Fixed(v / 10, width - 1);
      assert Fixed(v, width)[width - 1..] == [Digit(v % 10)];
      assert Fixed(u, width)[..width - 1] == Fixed(u / 10, width - 1);
      assert Fixed(u, width)[width - 1..] == [Digit(u % 10)];
    }
  }

  // Zero padding gives the numeral of that width.
  lemma {:induction false} PaddedIsFixed(v: nat, width: nat)
    requires width > 0 && v < Pow10(width)
    ensures Padded(v, width, '0') == Fixed(v, width)
  {
    DecimalLength(v, width);
    if v < 10 {
      ZeroFixed(width - 1);
      assert Repeat('0', width - 1) + [Digit(v)] == Fixed(v, width);
    } else {
      assert width > 1;
      PaddedIsFixed(v / 10, width - 1);
      DecimalLength(v / 10, width - 1);
      assert Padded(v, width, '0') == Padded(v / 10, width - 1, '0') + [Digit(v % 10)];
    }
  }

  lemma {:induction false} ZeroFixed(width: nat)
    ensures Pow10(width) > 0 && Fixed(0, width) == Repeat('0', width)
  {
    if width > 0 { ZeroFixed(width - 1); }
  }

  // ----- the text of a time in the years 0 to 9999 -----

  predicate InRange(dt: DateTime) {
    0 <= dt.year <= 9999 && ValidDate(Date(dt.year, dt.month, dt.day)) && ValidTime(dt)
  }

  lemma FieldIsFixed(x: int, width: nat)
    requires (width == 2 && 0 <= x < 100) || (width == 4 && 0 <= x < 10000)
    ensures x < Pow10(width) && Field(x, width) == Fixed(x, width) && |Field(x, width)| == width
  {
    assert Pow10(2) == 100 by { assert Pow10(0) == 1; }
    assert Pow10(4) == 10000 by { PowSum(2, 2); }
    PaddedIsFixed(x, width);
    FixedLength(x, width);
  }

  lemma IsoLength(dt: DateTime)
    requires InRange(dt)
    ensures |Text(dt)| == 20
  {
    FieldIsFixed(dt.year, 4);
    FieldIsFixed(dt.month, 2); FieldIsFixed(dt.day, 2);
    FieldIsFixed(dt.hour, 2); FieldIsFixed(dt.minute, 2); FieldIsFixed(dt.second, 2);
  }

  // The digits from place i up to place j have that value.
  predicate Digits(t: string, i: nat, j: nat, v: int)
    requires i <= j <= |t|
  {
    AllDigits(t[i..j]) && Parse(t[i..j]) == v
  }

  // Marks and digits are at the places that ISO 8601 gives them, and the digits are those of the six fields.
  predicate ReadsBack(t: string, dt: DateTime) {
    && |t| == 20 && t[4] == '-' && t[7] == '-' && t[10] == 'T' && t[13] == ':' && t[16] == ':' && t[19] == 'Z'
    && Digits(t, 0, 4, dt.year) && Digits(t, 5, 7, dt.month) && Digits(t, 8, 10, dt.day)
    && Digits(t, 11, 13, dt.hour) && Digits(t, 14, 16, dt.minute) && Digits(t, 17, 19, dt.second)
  }

  lemma Places(y: string, mo: string, d: string, h: string, mi: string, s: string)
    requires |y| == 4 && |mo| == |d| == |h| == |mi| == |s| == 2
    ensures var t := y + "-" + mo + "-" + d + "T" + h + ":" + mi + ":" + s + "Z";
      && |t| == 20 && t[4] == '-' && t[7] == '-' && t[10] == 'T' && t[13] == ':' && t[16] == ':' && t[19] == 'Z'
      && t[0..4] == y && t[5..7] == mo && t[8..10] == d && t[11..13] == h && t[14..16] == mi && t[17..19] == s
  {
    var date, clock := y + "-" + mo + "-" + d, h + ":" + mi + ":" + s;
    assert y + "-" + mo + "-" + d + "T" + h + ":" + mi + ":" + s + "Z" == date + ("T" + clock + "Z");
    DatePlaces(y, mo, d, "T" + clock + "Z");
    ClockPlaces(date + "T", h, mi, s);
    assert date + ("T" + clock + "Z") == (date + "T") + clock + "Z";
  }

  lemma DatePlaces(y: string, mo: string, d: string, rest: string)
    requires |y| == 4 && |mo| == |d| == 2
    ensures var t := y + "-" + mo + "-" + d + rest;
      t[4] == '-' && t[7] == '-' && t[0..4] == y && t[5..7] == mo && t[8..10] == d && t[10..] == rest
  {
  }

  lemma ClockPlaces(date: string, h: string, mi: string, s: string)
    requires |date| == 11 && |h| == |mi| == |s| == 2
    ensures var t := date + (h + ":" + mi + ":" + s) + "Z";
      && |t| == 20 && t[13] == ':' && t[16] == ':' && t[19] == 'Z'
      && t[11..13] == h && t[14..16] == mi && t[17..19] == s
  {
  }

  // The text of a time in range can be read back, field by field.
  lemma IsoPlaces(dt: DateTime)
    requires InRange(dt)
    ensures ReadsBack(Text(dt), dt)
  {
    FieldIsFixed(dt.year, 4); FieldIsFixed(dt.month, 2); FieldIsFixed(dt.day, 2);
    FieldIsFixed(dt.hour, 2); FieldIsFixed(dt.minute, 2); FieldIsFixed(dt.second, 2);
    FieldReads(dt.year, 4); FieldReads(dt.month, 2); FieldReads(dt.day, 2);
    FieldReads(dt.hour, 2); FieldReads(dt.minute, 2); FieldReads(dt.second, 2);
    var y, mo, d := Field(dt.year, 4), Field(dt.month, 2), Field(dt.day, 2);
    var h, mi, s := Field(dt.hour, 2), Field(dt.minute, 2), Field(dt.second, 2);
    Flat(y, mo, d, h, mi, s);
    Places(y, mo, d, h, mi, s);
  }

  // Two texts that begin with a field are compared by the field first.
  lemma FieldFirst(x: int, y: int, width: nat, s: string, t: string)
    requires (width == 2 && 0 <= x < 100 && 0 <= y < 100) || (width == 4 && 0 <= x < 10000 && 0 <= y < 10000)
    ensures Less(Field(x, width) + s, Field(y, width) + t) <==> x < y || (x == y && Less(s, t))
    ensures Less(Field(x, width), Field(y, width)) <==> x < y
    ensures Field(x, width) == Field(y, width) <==> x == y
  {
    FieldIsFixed(x, width);
    FieldIsFixed(y, width);
    FixedOrder(x, y, width);
    LessConcat(Field(x, width), Field(y, width), s, t);
  }

  lemma CharFirst(c: char, s: string, t: string)
    ensures Less([c] + s, [c] + t) <==> Less(s, t)
  {
    LessConcat([c], [c], s, t);
    assert !Less([c], [c]);
  }

  predicate DateLess(a: DateTime, b: DateTime) {
    a.year < b.year || (a.year == b.year && (a.month < b.month || (a.month == b.month && a.day < b.day)))
  }

  predicate SameDate(a: DateTime, b: DateTime) {
    a.year == b.year && a.month == b.month && a.day == b.day
  }

  predicate ClockLess(a: DateTime, b: DateTime) {
    a.hour < b.hour || (a.hour == b.hour && (a.minute < b.minute || (a.minute == b.minute && a.second < b.second)))
  }

  lemma DateTextOrder(a: DateTime, b: DateTime)
    requires InRange(a) && InRange(b)
    ensures Less(DateText(a), DateText(b)) <==> DateLess(a, b)
  {
    var da, db := Field(a.day, 2), Field(b.day, 2);
    var ma, mb := Field(a.month, 2), Field(b.month, 2);
    FieldFirst(a.day, b.day, 2, "", "");
    CharFirst('-', da, db);
    FieldFirst(a.month, b.month, 2, "-" + da, "-" + db);
    CharFirst('-', ma + ("-" + da), mb + ("-" + db));
    FieldFirst(a.year, b.year, 4, "-" + (ma + ("-" + da)), "-" + (mb + ("-" + db)));
  }

  lemma {:induction false} NotLessItself(s: string)
    ensures !Less(s, s)
  {
    if s != [] { NotLessItself(s[1..]); }
  }

  lemma SameDateText(a: DateTime, b: DateTime)
    requires InRange(a) && InRange(b)
    ensures |DateText(a)| == 10 && (DateText(a) == DateText(b) <==> SameDate(a, b))
  {
    FieldIsFixed(a.year, 4); FieldIsFixed(a.month, 2); FieldIsFixed(a.day, 2);
    if DateText(a) == DateText(b) {
      NotLessItself(DateText(a));
      DateTextOrder(a, b);
      DateTextOrder(b, a);
    }
  }

  lemma ClockTextOrder(a: DateTime, b: DateTime)
    requires InRange(a) && InRange(b)
    ensures Less(ClockText(a), ClockText(b)) <==> ClockLess(a, b)
  {
    var sa, sb := Field(a.second, 2) + "Z", Field(b.second, 2) + "Z";
    var ma, mb := Field(a.minute, 2), Field(b.minute, 2);
    FieldFirst(a.second, b.second, 2, "Z", "Z");
    assert !Less("Z", "Z");
    CharFirst(':', sa, sb);
    FieldFirst(a.minute, b.minute, 2, ":" + sa, ":" + sb);
    CharFirst(':', ma + (":" + sa), mb + (":" + sb));
    FieldFirst(a.hour, b.hour, 2, ":" + (ma + (":" + sa)), ":" + (mb + (":" + sb)));
  }

  lemma TextOrder(a: DateTime, b: DateTime)
    requires InRange(a) && InRange(b)
    ensures Less(Text(a), Text(b)) <==> DateLess(a, b) || (SameDate(a, b) && ClockLess(a, b))
  {
    DateTextOrder(a, b);
    SameDateText(a, b);
    SameDateText(b, a);
    ClockTextOrder(a, b);
    CharFirst('T', ClockText(a), ClockText(b));
    LessConcat(DateText(a), DateText(b), "T" + ClockText(a), "T" + ClockText(b));
  }

  // ----- the order in time -----

  lemma DaysOrder(a: DateTime, b: DateTime)
    requires ValidDate(Date(a.year, a.month, a.day)) && ValidDate(Date(b.year, b.month, b.day))
    ensures DateToDays(Date(a.year, a.month, a.day)) < DateToDays(Date(b.year, b.month, b.day)) <==> DateLess(a, b)
  {
    if DateLess(a, b) {
      EarlierDate(Date(a.year, a.month, a.day), Date(b.year, b.month, b.day));
    } else if DateLess(b, a) {
      EarlierDate(Date(b.year, b.month, b.day), Date(a.year, a.month, a.day));
    }
  }

  // As texts, times of the years 0 to 9999 are in the order in which they happen.
  lemma TextOrderIsTimeOrder(a: DateTime, b: DateTime)
    requires InRange(a) && InRange(b)
    ensures Less(Text(a), Text(b)) <==> ToUnix(a) < ToUnix(b)
  {
    TextOrder(a, b);
    DaysOrder(a, b);
    DaysOrder(b, a);
  }
}
