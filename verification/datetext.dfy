/** Reading and writing date-times as text: the `strptime` formats
    `%Y:%m:%d %H:%M:%S` (EXIF) and `%Y-%m-%d %H:%M:%S` (file modification
    date), and the `strftime` stamp `%Y%m%dT%H%M%S` used in new file names.

    `strptime` matches each numeric directive with a regular expression:
    `%Y` is exactly four digits, the others one or two digits within a range
    (`%d` may also be a space and one digit), and a space in the format
    matches one or more whitespace characters. The whole input must be
    consumed, and the fields must then form a valid `datetime`. */
module DateText {
  import opened Wrappers
  import opened Ascii
  import opened Calendar

  predicate AllDigits(s: string) {
    forall i :: 0 <= i < |s| ==> IsDigit(s[i])
  }

  function DigitValue(c: char): nat
    requires IsDigit(c)
  {
    c as int - '0' as int
  }

  function DigitChar(d: nat): char
    requires d < 10
  {
    ('0' as int + d) as char
  }

  /** The number a string of decimal digits denotes. */
  function DigitsValue(s: string): nat
    requires AllDigits(s)
  {
    if s == [] then 0 else DigitsValue(s[..|s| - 1]) * 10 + DigitValue(s[|s| - 1])
  }

  function Pow10(n: nat): nat {
    if n == 0 then 1 else 10 * Pow10(n - 1)
  }

  /** `v` in decimal, left-padded with zeros to `width` digits. */
  function Pad(v: nat, width: nat): (r: string)
    requires v < Pow10(width)
    ensures |r| == width && AllDigits(r)
    ensures DigitsValue(r) == v
  {
    if width == 0 then "" else
      var r := Pad(v / 10, width - 1) + [DigitChar(v % 10)];
      assert r[..|r| - 1] == Pad(v / 10, width - 1);
      r
  }

  /** Length of the run of digits that starts `s`. */
  function DigitRun(s: string): (n: nat)
    ensures n <= |s|
    ensures AllDigits(s[..n])
    ensures n < |s| ==> !IsDigit(s[n])
  {
    if s == [] || !IsDigit(s[0]) then 0 else
      var n := 1 + DigitRun(s[1..]);
      assert s[..n] == [s[0]] + s[1..][..n - 1];
      n
  }

  /** Length of the run of whitespace that starts `s`. */
  function SpaceRun(s: string): (n: nat)
    ensures n <= |s|
    ensures forall i :: 0 <= i < n ==> IsSpace(s[i])
    ensures n < |s| ==> !IsSpace(s[n])
  {
    if s == [] || !IsSpace(s[0]) then 0 else 1 + SpaceRun(s[1..])
  }

  /** A field read from the front of the text and what follows it. */
  datatype Scan = Scan(value: nat, rest: string)

  /** A one- or two-digit field with a value in `lo..hi`. Every such directive
      is followed by a non-digit or by the end of the text, so the field is the
      whole digit run. */
  function ScanField(s: string, lo: nat, hi: nat): Option<Scan> {
    var n := DigitRun(s);
    if 1 <= n <= 2 && lo <= DigitsValue(s[..n]) <= hi then Some(Scan(DigitsValue(s[..n]), s[n..])) else None
  }

  /** `%Y`: exactly four digits. */
  function ScanYear(s: string): Option<Scan> {
    var n := DigitRun(s);
    if n == 4 then Some(Scan(DigitsValue(s[..n]), s[n..])) else None
  }

  /** `%d`: `01`..`31`, `1`..`9`, or a space followed by `1`..`9`. */
  function ScanDay(s: string): Option<Scan> {
    if |s| > 0 && s[0] == ' ' then
      var n := DigitRun(s[1..]);
      if n == 1 && 1 <= DigitValue(s[1]) then Some(Scan(DigitValue(s[1]), s[2..])) else None
    else
      ScanField(s, 1, 31)
  }

  function Expect(s: string, c: char): Option<string> {
    if |s| > 0 && s[0] == c then Some(s[1..]) else None
  }

  /** The format's single space: one or more whitespace characters. */
  function ExpectSpaces(s: string): Option<string> {
    var n := SpaceRun(s);
    if n >= 1 then Some(s[n..]) else None
  }

  /** Three numeric fields read from the front of the text and what follows. */
  datatype Triple = Triple(first: nat, second: nat, third: nat, rest: string)

  /** `%Y<sep>%m<sep>%d`. */
  function ScanDate(s: string, sep: char): Option<Triple> {
    var year :- ScanYear(s);
    var s1 :- Expect(year.rest, sep);
    var month :- ScanField(s1, 1, 12);
    var s2 :- Expect(month.rest, sep);
    var day :- ScanDay(s2);
    Some(Triple(year.value, month.value, day.value, day.rest))
  }

  /** `%H:%M:%S`. */
  function ScanClock(s: string): Option<Triple> {
    var hour :- ScanField(s, 0, 23);
    var s1 :- Expect(hour.rest, ':');
    var minute :- ScanField(s1, 0, 59);
    var s2 :- Expect(minute.rest, ':');
    var second :- ScanField(s2, 0, 61);
    Some(Triple(hour.value, minute.value, second.value, second.rest))
  }

  /** `datetime.strptime(s, '%Y<sep>%m<sep>%d %H:%M:%S')`; `None` stands for the
      `ValueError` it raises. */
  function ParseDateTime(s: string, sep: char): Option<Timestamp> {
    var date :- ScanDate(s, sep);
    var s1 :- ExpectSpaces(date.rest);
    var clock :- ScanClock(s1);
    var dt := DateTime(date.first, date.second, date.third, clock.first, clock.second, clock.third);
    if clock.rest == [] && Valid(dt) then Some(dt) else None
  }

  /** The canonical text of a date-time in the parsed format. */
  function Render(t: Timestamp, sep: char): string {
    Pad(t.year, 4) + [sep] + Pad(t.month, 2) + [sep] + Pad(t.day, 2) + " "
      + Pad(t.hour, 2) + ":" + Pad(t.minute, 2) + ":" + Pad(t.second, 2)
  }

  /** `t.strftime('%Y%m%dT%H%M%S')`. */
  function Stamp(t: Timestamp): (r: string)
    ensures |r| == 15
  {
    Pad(t.year, 4) + Pad(t.month, 2) + Pad(t.day, 2) + "T" + Pad(t.hour, 2) + Pad(t.minute, 2) + Pad(t.second, 2)
  }

  /** The digits of a number are determined by its value and width. */
  lemma {:induction false} DigitsDetermined(s: string, u: string)
    requires AllDigits(s) && AllDigits(u) && |s| == |u|
    requires DigitsValue(s) == DigitsValue(u)
    ensures s == u
    decreases |s|
  {
    if s != [] {
      var n := |s| - 1;
      LastDigit(s);
      LastDigit(u);
      DigitsDetermined(s[..n], u[..n]);
      assert s == s[..n] + [s[n]] && u == u[..n] + [u[n]];
    }
  }

  /** The last digit is the value modulo ten; the others denote the value
      divided by ten. */
  lemma LastDigit(s: string)
    requires AllDigits(s) && s != []
    ensures DigitValue(s[|s| - 1]) == DigitsValue(s) % 10
    ensures DigitsValue(s[..|s| - 1]) == DigitsValue(s) / 10
  {
    var n := |s| - 1;
    assert DigitsValue(s) == DigitsValue(s[..n]) * 10 + DigitValue(s[n]);
    DivMod10(DigitsValue(s[..n]), DigitValue(s[n]));
  }

  lemma DivMod10(a: nat, d: nat)
    requires d < 10
    ensures (a * 10 + d) % 10 == d && (a * 10 + d) / 10 == a
  {
  }

  lemma {:induction false} DigitsValueBound(s: string)
    requires AllDigits(s)
    ensures DigitsValue(s) < Pow10(|s|)
    decreases |s|
  {
    if s != [] {
      DigitsValueBound(s[..|s| - 1]);
    }
  }

  /** Padding the value of a digit string back to its width gives the string. */
  lemma PadOfDigits(s: string)
    requires AllDigits(s)
    ensures DigitsValue(s) < Pow10(|s|)
    ensures Pad(DigitsValue(s), |s|) == s
  {
    DigitsValueBound(s);
    DigitsDetermined(Pad(DigitsValue(s), |s|), s);
  }

  /** A digit string followed by a non-digit is exactly the leading digit run. */
  lemma {:induction false} DigitRunOf(d: string, rest: string)
    requires AllDigits(d)
    requires rest == [] || !IsDigit(rest[0])
    ensures DigitRun(d + rest) == |d|
    decreases |d|
  {
    if d != [] {
      assert (d + rest)[1..] == d[1..] + rest;
      DigitRunOf(d[1..], rest);
    }
  }

  /** A one- or two-digit field followed by a non-digit is read whole, and
      accepted exactly when its value is in range. */
  lemma ScanFieldOf(d: string, rest: string, lo: nat, hi: nat)
    requires AllDigits(d) && 1 <= |d| <= 2
    requires rest == [] || !IsDigit(rest[0])
    ensures ScanField(d + rest, lo, hi)
         == if lo <= DigitsValue(d) <= hi then Some(Scan(DigitsValue(d), rest)) else None
  {
    var s := d + rest;
    DigitRunOf(d, rest);
    assert s[..|d|] == d && s[|d|..] == rest;
  }

  /** `YYYY<sep>M<sep>D`, with a one- or two-digit month and a day as `%d`
      writes it, is read as its three numbers, month and day range-checked. */
  lemma ScanDateOf(y: string, m: string, d: string, sep: char, rest: string)
    requires AllDigits(y) && |y| == 4 && AllDigits(m) && 1 <= |m| <= 2 && DayText(d)
    requires !IsDigit(sep)
    requires rest == [] || !IsDigit(rest[0])
    ensures ScanDate(y + ([sep] + (m + ([sep] + (d + rest)))), sep)
         == if 1 <= DigitsValue(m) <= 12 && 1 <= DayValue(d) <= 31
            then Some(Triple(DigitsValue(y), DigitsValue(m), DayValue(d), rest))
            else None
  {
    var s2 := d + rest;
    var s1 := m + ([sep] + s2);
    ScanYearOf(y, [sep] + s1);
    assert Expect([sep] + s1, sep) == Some(s1);
    ScanFieldOf(m, [sep] + s2, 1, 12);
    assert Expect([sep] + s2, sep) == Some(s2);
    ScanDayOf(d, rest);
  }

  /** Four digits followed by a non-digit are read as the year. */
  lemma ScanYearOf(y: string, rest: string)
    requires AllDigits(y) && |y| == 4
    requires rest == [] || !IsDigit(rest[0])
    ensures ScanYear(y + rest) == Some(Scan(DigitsValue(y), rest))
  {
    DigitRunOf(y, rest);
    assert (y + rest)[..4] == y && (y + rest)[4..] == rest;
  }

  /** The number a field of one or two digits denotes, in closed form. */
  function FieldValue(f: string): nat
    requires AllDigits(f) && 1 <= |f| <= 2
  {
    if |f| == 1 then DigitValue(f[0]) else 10 * DigitValue(f[0]) + DigitValue(f[1])
  }

  lemma FieldValueIsDigitsValue(f: string)
    requires AllDigits(f) && 1 <= |f| <= 2
    ensures FieldValue(f) == DigitsValue(f)
  {
    if |f| == 2 {
      assert f[..1][..0] == [];
    }
  }

  /** `%d`'s text: one or two digits, or a space and one digit. */
  predicate DayText(d: string) {
    || (AllDigits(d) && 1 <= |d| <= 2)
    || (|d| == 2 && d[0] == ' ' && IsDigit(d[1]))
  }

  function DayValue(d: string): nat
    requires DayText(d)
  {
    if d[0] == ' ' then DigitValue(d[1]) else FieldValue(d)
  }

  /** A day followed by a non-digit is read as the day when in range. */
  lemma ScanDayOf(d: string, rest: string)
    requires DayText(d)
    requires rest == [] || !IsDigit(rest[0])
    ensures ScanDay(d + rest) == if 1 <= DayValue(d) <= 31 then Some(Scan(DayValue(d), rest)) else None
  {
    var s := d + rest;
    if d[0] == ' ' {
      assert s[1..] == [d[1]] + rest;
      DigitRunOf([d[1]], rest);
      assert s[2..] == rest;
    } else {
      assert s[0] == d[0] && IsDigit(d[0]);
      ScanFieldOf(d, rest, 1, 31);
      FieldValueIsDigitsValue(d);
    }
  }

  /** `H:M:S`, each field one or two digits, is read as its three numbers,
      each range-checked. */
  lemma ScanClockOf(h: string, m: string, x: string, s: string)
    requires AllDigits(h) && AllDigits(m) && AllDigits(x)
    requires 1 <= |h| <= 2 && 1 <= |m| <= 2 && 1 <= |x| <= 2
    requires s == h + (":" + (m + (":" + x)))
    ensures ScanClock(s)
         == if DigitsValue(h) <= 23 && DigitsValue(m) <= 59 && DigitsValue(x) <= 61
            then Some(Triple(DigitsValue(h), DigitsValue(m), DigitsValue(x), []))
            else None
  {
    var s1 := m + (":" + x);
    FieldThenColon(h, s1, 0, 23);
    FieldThenColon(m, x, 0, 59);
    LastFieldOf(x, 0, 61);
  }

  /** A field that ends the text is read whole. */
  lemma LastFieldOf(d: string, lo: nat, hi: nat)
    requires AllDigits(d) && 1 <= |d| <= 2
    ensures ScanField(d, lo, hi) == if lo <= DigitsValue(d) <= hi then Some(Scan(DigitsValue(d), [])) else None
  {
    ScanFieldOf(d, [], lo, hi);
    assert d + [] == d;
  }

  /** A field followed by a colon is read whole, and the colon is then
      matched. */
  lemma FieldThenColon(d: string, rest: string, lo: nat, hi: nat)
    requires AllDigits(d) && 1 <= |d| <= 2
    ensures ScanField(d + (":" + rest), lo, hi)
         == if lo <= DigitsValue(d) <= hi then Some(Scan(DigitsValue(d), ":" + rest)) else None
    ensures Expect(":" + rest, ':') == Some(rest)
  {
    ScanFieldOf(d, ":" + rest, lo, hi);
  }

  /** Text in the exact shape `YYYY<sep>MM<sep>DD HH:MM:SS`. */
  predicate Canonical(s: string, sep: char) {
    && |s| == 19
    && s[4] == sep && s[7] == sep && s[10] == ' ' && s[13] == ':' && s[16] == ':'
    && AllDigits(s[..4]) && AllDigits(s[5..7]) && AllDigits(s[8..10])
    && AllDigits(s[11..13]) && AllDigits(s[14..16]) && AllDigits(s[17..])
  }

  /** The fields written in canonical text, whether or not they form a date. */
  function CanonicalFields(s: string, sep: char): DateTime
    requires Canonical(s, sep)
  {
    DateTime(DigitsValue(s[..4]), DigitsValue(s[5..7]), DigitsValue(s[8..10]),
             DigitsValue(s[11..13]), DigitsValue(s[14..16]), DigitsValue(s[17..]))
  }

  /** Canonical text parses exactly when its fields form a valid date-time, and
      then to those fields. */
  lemma ParseCanonical(s: string, sep: char)
    requires !IsDigit(sep)
    requires Canonical(s, sep)
    ensures ParseDateTime(s, sep) == if Valid(CanonicalFields(s, sep)) then Some(CanonicalFields(s, sep)) else None
  {
    var clock := s[11..13] + (":" + (s[14..16] + (":" + s[17..])));
    var rest := " " + clock;
    assert s == s[..4] + ([sep] + (s[5..7] + ([sep] + (s[8..10] + rest))));
    ScanDateOf(s[..4], s[5..7], s[8..10], sep, rest);
    FieldValueIsDigitsValue(s[8..10]);
    assert !IsSpace(clock[0]);
    assert SpaceRun(rest) == 1;
    assert ExpectSpaces(rest) == Some(clock);
    ScanClockOf(s[11..13], s[14..16], s[17..], clock);
  }

  /** A whitespace run followed by a non-space is exactly the leading run. */
  lemma {:induction false} SpaceRunOf(sp: string, rest: string)
    requires forall i :: 0 <= i < |sp| ==> IsSpace(sp[i])
    requires rest == [] || !IsSpace(rest[0])
    ensures SpaceRun(sp + rest) == |sp|
    decreases |sp|
  {
    if sp != [] {
      assert (sp + rest)[1..] == sp[1..] + rest;
      SpaceRunOf(sp[1..], rest);
    }
  }

  /** The leniency of `strptime`: a month, hour, minute or second of one
      digit, a day of one digit or a space and one digit, and any non-empty
      run of whitespace between date and time are all accepted. Such text
      parses exactly when its fields form a valid date-time, and then to
      those fields. */
  lemma ParseLenient(y: string, m: string, d: string, sp: string, h: string, mi: string, x: string,
                     sep: char, clock: string, s: string)
    requires AllDigits(y) && |y| == 4 && AllDigits(m) && 1 <= |m| <= 2 && DayText(d)
    requires |sp| >= 1 && forall i :: 0 <= i < |sp| ==> IsSpace(sp[i])
    requires AllDigits(h) && AllDigits(mi) && AllDigits(x)
    requires 1 <= |h| <= 2 && 1 <= |mi| <= 2 && 1 <= |x| <= 2
    requires !IsDigit(sep)
    requires clock == h + (":" + (mi + (":" + x)))
    requires s == y + ([sep] + (m + ([sep] + (d + (sp + clock)))))
    ensures var dt := DateTime(DigitsValue(y), FieldValue(m), DayValue(d), FieldValue(h), FieldValue(mi), FieldValue(x));
      ParseDateTime(s, sep) == if Valid(dt) then Some(dt) else None
  {
    var rest := sp + clock;
    SpacesThenClock(sp, clock, rest);
    DateThen(y, m, d, sep, rest, s);
    ClockThen(h, mi, x, clock);
    var dt := DateTime(DigitsValue(y), FieldValue(m), DayValue(d), FieldValue(h), FieldValue(mi), FieldValue(x));
    ParseOfScans(s, sep, rest, clock, ScanDate(s, sep), ScanClock(clock), dt);
  }

  /** The date part of `s`, followed by `rest`, scans as its three numbers. */
  lemma DateThen(y: string, m: string, d: string, sep: char, rest: string, s: string)
    requires AllDigits(y) && |y| == 4 && AllDigits(m) && 1 <= |m| <= 2 && DayText(d)
    requires !IsDigit(sep)
    requires rest == [] || !IsDigit(rest[0])
    requires s == y + ([sep] + (m + ([sep] + (d + rest))))
    ensures ScanDate(s, sep)
         == if 1 <= FieldValue(m) <= 12 && 1 <= DayValue(d) <= 31
            then Some(Triple(DigitsValue(y), FieldValue(m), DayValue(d), rest))
            else None
  {
    ScanDateOf(y, m, d, sep, rest);
    FieldValueIsDigitsValue(m);
  }

  /** A clock of one- or two-digit fields scans as its three numbers. */
  lemma ClockThen(h: string, mi: string, x: string, clock: string)
    requires AllDigits(h) && AllDigits(mi) && AllDigits(x)
    requires 1 <= |h| <= 2 && 1 <= |mi| <= 2 && 1 <= |x| <= 2
    requires clock == h + (":" + (mi + (":" + x)))
    ensures ScanClock(clock)
         == if FieldValue(h) <= 23 && FieldValue(mi) <= 59 && FieldValue(x) <= 61
            then Some(Triple(FieldValue(h), FieldValue(mi), FieldValue(x), []))
            else None
  {
    ScanClockOf(h, mi, x, clock);
    FieldValueIsDigitsValue(h);
    FieldValueIsDigitsValue(mi);
    FieldValueIsDigitsValue(x);
  }

  /** A non-empty run of whitespace followed by a clock that starts with a
      digit: the run is skipped to exactly the clock. */
  lemma SpacesThenClock(sp: string, clock: string, rest: string)
    requires |sp| >= 1 && forall i :: 0 <= i < |sp| ==> IsSpace(sp[i])
    requires clock != [] && IsDigit(clock[0])
    requires rest == sp + clock
    ensures !IsDigit(rest[0])
    ensures ExpectSpaces(rest) == Some(clock)
  {
    assert rest[0] == sp[0];
    SpaceRunOf(sp, clock);
    assert rest[|sp|..] == clock;
  }

  /** Text whose date and clock parts scan to fields in range parses exactly
      when the fields form a valid date-time. */
  lemma ParseOfScans(s: string, sep: char, rest: string, clock: string, date: Option<Triple>, time: Option<Triple>,
                     dt: DateTime)
    requires dt.year >= 0 && dt.month >= 0 && dt.day >= 0 && dt.hour >= 0 && dt.minute >= 0 && dt.second >= 0
    requires ScanDate(s, sep) == date
    requires date == if 1 <= dt.month <= 12 && 1 <= dt.day <= 31
                     then Some(Triple(dt.year, dt.month, dt.day, rest)) else None
    requires ExpectSpaces(rest) == Some(clock)
    requires ScanClock(clock) == time
    requires time == if dt.hour <= 23 && dt.minute <= 59 && dt.second <= 61
                     then Some(Triple(dt.hour, dt.minute, dt.second, [])) else None
    ensures ParseDateTime(s, sep) == if Valid(dt) then Some(dt) else None
  {
    if 1 <= dt.month <= 12 && 1 <= dt.day <= 31 && dt.hour <= 23 && dt.minute <= 59 && dt.second <= 61 {
      ParseOfParts(s, sep, rest, clock, dt.year, dt.month, dt.day, dt.hour, dt.minute, dt.second);
    } else {
      ParseFailsAtScan(s, sep, rest, clock);
    }
  }

  /** Date and clock parts that scan: the fields are kept when they form a
      valid date-time. */
  lemma ParseOfParts(s: string, sep: char, rest: string, clock: string,
                     year: nat, month: nat, day: nat, hour: nat, minute: nat, second: nat)
    requires ScanDate(s, sep) == Some(Triple(year, month, day, rest))
    requires ExpectSpaces(rest) == Some(clock)
    requires ScanClock(clock) == Some(Triple(hour, minute, second, []))
    ensures var dt := DateTime(year, month, day, hour, minute, second);
      ParseDateTime(s, sep) == if Valid(dt) then Some(dt) else None
  {
  }

  /** A date or clock part that does not scan makes the text fail to parse. */
  lemma ParseFailsAtScan(s: string, sep: char, rest: string, clock: string)
    requires ScanDate(s, sep).Some? ==> ScanDate(s, sep).value.rest == rest
    requires ExpectSpaces(rest) == Some(clock)
    requires ScanDate(s, sep).None? || ScanClock(clock).None?
    ensures ParseDateTime(s, sep) == None
  {
  }

  /** What a scanned field consumed: one or two digits, up to a non-digit. */
  lemma ScanFieldShape(s: string, lo: nat, hi: nat) returns (f: string)
    requires ScanField(s, lo, hi).Some?
    ensures AllDigits(f) && 1 <= |f| <= 2
    ensures s == f + ScanField(s, lo, hi).value.rest
    ensures ScanField(s, lo, hi).value.value == FieldValue(f) && lo <= FieldValue(f) <= hi
    ensures var rest := ScanField(s, lo, hi).value.rest; rest == [] || !IsDigit(rest[0])
  {
    var n := DigitRun(s);
    f := s[..n];
    FieldValueIsDigitsValue(f);
    assert s == s[..n] + s[n..];
  }

  /** What a scanned year consumed: exactly four digits, up to a non-digit. */
  lemma ScanYearShape(s: string) returns (y: string)
    requires ScanYear(s).Some?
    ensures AllDigits(y) && |y| == 4
    ensures s == y + ScanYear(s).value.rest
    ensures ScanYear(s).value.value == DigitsValue(y)
    ensures var rest := ScanYear(s).value.rest; rest == [] || !IsDigit(rest[0])
  {
    y := s[..4];
    assert s == s[..4] + s[4..];
  }

  /** What a scanned day consumed: a day text in range, up to a non-digit. */
  lemma ScanDayShape(s: string) returns (d: string)
    requires ScanDay(s).Some?
    ensures DayText(d)
    ensures s == d + ScanDay(s).value.rest
    ensures ScanDay(s).value.value == DayValue(d) && 1 <= DayValue(d) <= 31
    ensures var rest := ScanDay(s).value.rest; rest == [] || !IsDigit(rest[0])
  {
    if |s| > 0 && s[0] == ' ' {
      d := s[..2];
      assert s[1..][0] == s[1];
      assert |s| > 2 ==> s[1..][1] == s[2];
      assert s == s[..2] + s[2..];
    } else {
      d := ScanFieldShape(s, 1, 31);
    }
  }

  /** What a skipped whitespace run consumed: one or more spaces. */
  lemma ExpectSpacesShape(s: string) returns (sp: string)
    requires ExpectSpaces(s).Some?
    ensures |sp| >= 1 && forall i :: 0 <= i < |sp| ==> IsSpace(sp[i])
    ensures s == sp + ExpectSpaces(s).value
  {
    var n := SpaceRun(s);
    sp := s[..n];
    assert s == s[..n] + s[n..];
  }

  /** A date that scans is a four-digit year, a month and a day, joined by the
      separator, which is therefore not a digit. */
  lemma ScanDateShape(s: string, sep: char) returns (y: string, m: string, d: string)
    requires ScanDate(s, sep).Some?
    ensures AllDigits(y) && |y| == 4 && AllDigits(m) && 1 <= |m| <= 2 && DayText(d)
    ensures !IsDigit(sep)
    ensures s == y + ([sep] + (m + ([sep] + (d + ScanDate(s, sep).value.rest))))
    ensures ScanDate(s, sep).value.first == DigitsValue(y)
    ensures ScanDate(s, sep).value.second == FieldValue(m) && 1 <= FieldValue(m) <= 12
    ensures ScanDate(s, sep).value.third == DayValue(d) && 1 <= DayValue(d) <= 31
    ensures var rest := ScanDate(s, sep).value.rest; rest == [] || !IsDigit(rest[0])
  {
    var s1, s2;
    y, s1 := YearThenShape(s, sep);
    m, s2 := FieldThenShape(s1, 1, 12, sep);
    d := ScanDayShape(s2);
    var date := ScanDate(s, sep).value;
    assert date == Triple(DigitsValue(y), FieldValue(m), DayValue(d), ScanDay(s2).value.rest);
  }

  /** What a scanned year and the separator after it consumed. */
  lemma YearThenShape(s: string, sep: char) returns (y: string, tail: string)
    requires ScanYear(s).Some? && Expect(ScanYear(s).value.rest, sep).Some?
    ensures AllDigits(y) && |y| == 4 && !IsDigit(sep)
    ensures tail == Expect(ScanYear(s).value.rest, sep).value
    ensures s == y + ([sep] + tail)
    ensures ScanYear(s).value.value == DigitsValue(y)
  {
    y := ScanYearShape(s);
    var rest := ScanYear(s).value.rest;
    tail := rest[1..];
    assert rest == [sep] + tail;
  }

  /** A clock that scans is three one- or two-digit fields joined by colons. */
  lemma ScanClockShape(c: string) returns (h: string, mi: string, x: string)
    requires ScanClock(c).Some?
    ensures AllDigits(h) && AllDigits(mi) && AllDigits(x)
    ensures 1 <= |h| <= 2 && 1 <= |mi| <= 2 && 1 <= |x| <= 2
    ensures c == h + (":" + (mi + (":" + (x + ScanClock(c).value.rest))))
    ensures ScanClock(c).value.first == FieldValue(h)
    ensures ScanClock(c).value.second == FieldValue(mi)
    ensures ScanClock(c).value.third == FieldValue(x)
  {
    var s1;
    h, s1 := FieldThenShape(c, 0, 23, ':');
    var s2;
    mi, s2 := FieldThenShape(s1, 0, 59, ':');
    x := ScanFieldShape(s2, 0, 61);
    var clock := ScanClock(c).value;
    assert clock == Triple(FieldValue(h), FieldValue(mi), FieldValue(x), ScanField(s2, 0, 61).value.rest);
  }

  /** What a scanned field and the separator after it consumed. */
  lemma FieldThenShape(s: string, lo: nat, hi: nat, c: char) returns (f: string, tail: string)
    requires ScanField(s, lo, hi).Some? && Expect(ScanField(s, lo, hi).value.rest, c).Some?
    ensures AllDigits(f) && 1 <= |f| <= 2
    ensures tail == Expect(ScanField(s, lo, hi).value.rest, c).value
    ensures s == f + ([c] + tail)
    ensures ScanField(s, lo, hi).value.value == FieldValue(f) && lo <= FieldValue(f) <= hi
  {
    f := ScanFieldShape(s, lo, hi);
    var rest := ScanField(s, lo, hi).value.rest;
    tail := rest[1..];
    assert rest == [c] + tail;
  }

  /** The converse of `ParseLenient`: text that parses is exactly the lenient
      pieces, with nothing before or after them, and parses to their values.
      Together the two say which text `strptime` rejects. */
  lemma ParseShape(s: string, sep: char) returns (y: string, m: string, d: string, sp: string,
                                                  h: string, mi: string, x: string)
    requires ParseDateTime(s, sep).Some?
    ensures AllDigits(y) && |y| == 4 && AllDigits(m) && 1 <= |m| <= 2 && DayText(d)
    ensures |sp| >= 1 && forall i :: 0 <= i < |sp| ==> IsSpace(sp[i])
    ensures AllDigits(h) && AllDigits(mi) && AllDigits(x)
    ensures 1 <= |h| <= 2 && 1 <= |mi| <= 2 && 1 <= |x| <= 2
    ensures !IsDigit(sep)
    ensures s == y + ([sep] + (m + ([sep] + (d + (sp + (h + (":" + (mi + (":" + x)))))))))
    ensures ParseDateTime(s, sep)
         == Some(DateTime(DigitsValue(y), FieldValue(m), DayValue(d), FieldValue(h), FieldValue(mi), FieldValue(x)))
  {
    var date := ScanDate(s, sep).value;
    var s1 := ExpectSpaces(date.rest).value;
    var clock := ScanClock(s1).value;
    assert clock.rest == [];
    assert ParseDateTime(s, sep)
        == Some(DateTime(date.first, date.second, date.third, clock.first, clock.second, clock.third));
    y, m, d := ScanDateShape(s, sep);
    sp := ExpectSpacesShape(date.rest);
    h, mi, x := ScanClockShape(s1);
    JoinPieces(y, m, d, sp, h, mi, x, sep, s1, date.rest, s);
  }

  /** Text that parses opens with exactly four digits and then the
      separator; a longer or shorter year, or another separator, is
      rejected. */
  lemma ParsedOpening(s: string, sep: char)
    requires ParseDateTime(s, sep).Some?
    ensures DigitRun(s) == 4 && |s| > 4 && s[4] == sep
  {
    var y, m, d, sp, h, mi, x := ParseShape(s, sep);
    var rest := [sep] + (m + ([sep] + (d + (sp + (h + (":" + (mi + (":" + x))))))));
    assert s == y + rest && rest[0] == sep;
    DigitRunOf(y, rest);
  }

  /** The pieces of a parse, put back together, are the text. */
  lemma JoinPieces(y: string, m: string, d: string, sp: string, h: string, mi: string, x: string,
                   sep: char, clock: string, rest: string, s: string)
    requires clock == h + (":" + (mi + (":" + (x + []))))
    requires rest == sp + clock
    requires s == y + ([sep] + (m + ([sep] + (d + rest))))
    ensures s == y + ([sep] + (m + ([sep] + (d + (sp + (h + (":" + (mi + (":" + x)))))))))
  {
    assert x + [] == x;
  }

  /** Anything after the seconds that does not extend them is left
      unconverted, and the text is rejected. */
  lemma RejectsTrailing(y: string, m: string, d: string, sp: string, h: string, mi: string, x: string,
                        sep: char, junk: string, s: string)
    requires AllDigits(y) && |y| == 4 && AllDigits(m) && 1 <= |m| <= 2 && DayText(d)
    requires |sp| >= 1 && forall i :: 0 <= i < |sp| ==> IsSpace(sp[i])
    requires AllDigits(h) && AllDigits(mi) && AllDigits(x)
    requires 1 <= |h| <= 2 && 1 <= |mi| <= 2 && 1 <= |x| <= 2
    requires !IsDigit(sep)
    requires junk != [] && !IsDigit(junk[0])
    requires s == y + ([sep] + (m + ([sep] + (d + (sp + (h + (":" + (mi + (":" + (x + junk))))))))))
    ensures ParseDateTime(s, sep) == None
  {
    var clock := h + (":" + (mi + (":" + (x + junk))));
    var rest := sp + clock;
    SpacesThenClock(sp, clock, rest);
    DateThen(y, m, d, sep, rest, s);
    ClockThenJunk(h, mi, x, junk, clock);
  }

  /** A clock followed by text that does not start with a digit scans up to
      that text. */
  lemma ClockThenJunk(h: string, mi: string, x: string, junk: string, clock: string)
    requires AllDigits(h) && AllDigits(mi) && AllDigits(x)
    requires 1 <= |h| <= 2 && 1 <= |mi| <= 2 && 1 <= |x| <= 2
    requires junk == [] || !IsDigit(junk[0])
    requires clock == h + (":" + (mi + (":" + (x + junk))))
    ensures ScanClock(clock).Some? ==> ScanClock(clock).value.rest == junk
  {
    FieldThenColon(h, mi + (":" + (x + junk)), 0, 23);
    FieldThenColon(mi, x + junk, 0, 59);
    ScanFieldOf(x, junk, 0, 61);
  }

  /** Parsing well-formed text and formatting it as a file-name stamp keeps the
      digits, drops the separators and puts a `T` between date and time. */
  lemma StampOfCanonical(s: string, sep: char)
    requires !IsDigit(sep)
    requires Canonical(s, sep)
    requires ParseDateTime(s, sep).Some?
    ensures Stamp(ParseDateTime(s, sep).value) == s[..4] + s[5..7] + s[8..10] + "T" + s[11..13] + s[14..16] + s[17..]
  {
    ParseCanonical(s, sep);
    PadOfDigits(s[..4]);
    PadOfDigits(s[5..7]);
    PadOfDigits(s[8..10]);
    PadOfDigits(s[11..13]);
    PadOfDigits(s[14..16]);
    PadOfDigits(s[17..]);
  }

  lemma RenderIsCanonical(t: Timestamp, sep: char)
    ensures Canonical(Render(t, sep), sep)
    ensures CanonicalFields(Render(t, sep), sep) == t
  {
    var s := Render(t, sep);
    assert s[..4] == Pad(t.year, 4);
    assert s[5..7] == Pad(t.month, 2);
    assert s[8..10] == Pad(t.day, 2);
    assert s[11..13] == Pad(t.hour, 2);
    assert s[14..16] == Pad(t.minute, 2);
    assert s[17..] == Pad(t.second, 2);
  }

  /** Rendering a date-time and parsing it back gives the same date-time, for
      either date separator. */
  lemma ParseRender(t: Timestamp, sep: char)
    requires !IsDigit(sep)
    ensures ParseDateTime(Render(t, sep), sep) == Some(t)
  {
    RenderIsCanonical(t, sep);
    ParseCanonical(Render(t, sep), sep);
  }

  /** Distinct date-times get distinct stamps, so distinct dates never compete
      for one file name. */
  lemma StampInjective(a: Timestamp, b: Timestamp)
    requires Stamp(a) == Stamp(b)
    ensures a == b
  {
    StampParts(a);
    StampParts(b);
  }

  /** Where each field sits in a stamp. */
  lemma StampParts(t: Timestamp)
    ensures var s := Stamp(t);
      && s[..4] == Pad(t.year, 4) && s[4..6] == Pad(t.month, 2) && s[6..8] == Pad(t.day, 2)
      && s[9..11] == Pad(t.hour, 2) && s[11..13] == Pad(t.minute, 2) && s[13..] == Pad(t.second, 2)
  {
    var s := Stamp(t);
    assert s[..4] == Pad(t.year, 4);
    assert s[4..6] == Pad(t.month, 2);
    assert s[6..8] == Pad(t.day, 2);
    assert s[9..11] == Pad(t.hour, 2);
    assert s[11..13] == Pad(t.minute, 2);
    assert s[13..] == Pad(t.second, 2);
  }

  /** The EXIF date of the sample photograph parses to 2025-11-09 16:38:56. */
  lemma SampleParse(t: Timestamp)
    requires t == DateTime(2025, 11, 9, 16, 38, 56)
    ensures ParseDateTime("2025:11:09 16:38:56", ':') == Some(t)
  {
    SampleRender(t);
    ParseRender(t, ':');
  }

  /** EXIF text with one-digit fields, a space-led day and two spaces before
      the clock, `2025:1: 9  1:2:3`, is still read. */
  lemma SampleLenient(y: string, m: string, d: string, sp: string, h: string, mi: string, x: string,
                      clock: string, s: string, t: Timestamp)
    requires y == "2025" && m == "1" && d == " 9" && sp == "  " && h == "1" && mi == "2" && x == "3"
    requires clock == h + (":" + (mi + (":" + x)))
    requires s == y + ([':'] + (m + ([':'] + (d + (sp + clock)))))
    requires t == DateTime(2025, 1, 9, 1, 2, 3)
    ensures ParseDateTime(s, ':') == Some(t)
  {
    SampleYearValue(y);
    ParseLenient(y, m, d, sp, h, mi, x, ':', clock, s);
  }

  /** A day the month does not have, `2025-2-30 1:2:3`, is refused however
      leniently written. */
  lemma SampleLenientInvalid(y: string, m: string, d: string, sp: string, h: string, mi: string, x: string,
                             clock: string, s: string)
    requires y == "2025" && m == "2" && d == "30" && sp == " " && h == "1" && mi == "2" && x == "3"
    requires clock == h + (":" + (mi + (":" + x)))
    requires s == y + (['-'] + (m + (['-'] + (d + (sp + clock)))))
    ensures ParseDateTime(s, '-') == None
  {
    assert AllDigits(y);
    assert FieldValue(m) == 2 && DayValue(d) == 30;
    assert DaysInMonth(DigitsValue(y), 2) <= 29;
    ParseLenient(y, m, d, sp, h, mi, x, '-', clock, s);
  }

  lemma SampleYearValue(y: string)
    requires y == "2025"
    ensures AllDigits(y) && DigitsValue(y) == 2025
  {
    assert AllDigits(y);
    assert y[..3] == "202" && y[..3][..2] == "20" && y[..3][..2][..1] == "2";
    assert DigitsValue("2") == 2 by { assert "2"[..0] == []; }
    assert DigitsValue("20") == 20;
    assert DigitsValue("202") == 202;
  }

  lemma SampleRender(t: Timestamp)
    requires t == DateTime(2025, 11, 9, 16, 38, 56)
    ensures Render(t, ':') == "2025:11:09 16:38:56"
  {
    SamplePads(t);
    RenderOfPads(t, ':', "2025", "11", "09", "16", "38", "56");
    SampleRenderText();
  }

  lemma RenderOfPads(t: Timestamp, sep: char, y: string, m: string, d: string, h: string, mi: string, x: string)
    requires Pad(t.year, 4) == y && Pad(t.month, 2) == m && Pad(t.day, 2) == d
    requires Pad(t.hour, 2) == h && Pad(t.minute, 2) == mi && Pad(t.second, 2) == x
    ensures Render(t, sep) == y + [sep] + m + [sep] + d + " " + h + ":" + mi + ":" + x
  {
  }

  lemma SampleRenderText()
    ensures "2025" + [':'] + "11" + [':'] + "09" + " " + "16" + ":" + "38" + ":" + "56" == "2025:11:09 16:38:56"
  {
  }

  lemma StampOfPads(t: Timestamp, y: string, m: string, d: string, h: string, mi: string, x: string)
    requires Pad(t.year, 4) == y && Pad(t.month, 2) == m && Pad(t.day, 2) == d
    requires Pad(t.hour, 2) == h && Pad(t.minute, 2) == mi && Pad(t.second, 2) == x
    ensures Stamp(t) == y + m + d + "T" + h + mi + x
  {
  }

  lemma SamplePads(t: Timestamp)
    requires t == DateTime(2025, 11, 9, 16, 38, 56)
    ensures Pad(t.year, 4) == "2025" && Pad(t.month, 2) == "11" && Pad(t.day, 2) == "09"
    ensures Pad(t.hour, 2) == "16" && Pad(t.minute, 2) == "38" && Pad(t.second, 2) == "56"
  {
    SampleYear(t.year);
    PadTwo(t.month);
    PadTwo(t.day);
    PadTwo(t.hour);
    PadTwo(t.minute);
    PadTwo(t.second);
  }

  /** A two-digit field is its tens digit followed by its units digit. */
  lemma PadTwo(v: nat)
    requires v < 100
    ensures Pad(v, 2) == [DigitChar(v / 10), DigitChar(v % 10)]
  {
    assert Pad(v / 10, 1) == Pad(v / 100, 0) + [DigitChar(v / 10 % 10)];
  }

  lemma SampleYear(v: nat)
    requires v == 2025
    ensures Pad(v, 4) == "2025"
  {
    assert Pad(v, 4) == Pad(202, 3) + ['5'];
    assert Pad(202, 3) == Pad(20, 2) + ['2'];
    PadTwo(20);
  }

  /** ... and its file-name stamp is `20251109T163856`. */
  lemma SampleStamp(t: Timestamp)
    requires t == DateTime(2025, 11, 9, 16, 38, 56)
    ensures Stamp(t) == "20251109T163856"
  {
    SamplePads(t);
    StampOfPads(t, "2025", "11", "09", "16", "38", "56");
    SampleStampText();
  }

  lemma SampleStampText()
    ensures "2025" + "11" + "09" + "T" + "16" + "38" + "56" == "20251109T163856"
  {
  }
}
