/**
 * The date helpers: AppleScript long dates to ISO 8601, the `Month DD, YYYY`
 * rendering, and the strict `YYYY-MM-DD` parser. A date is the fields of a
 * Python `datetime`; parsing follows what `datetime.strptime` does with the
 * format strings the helpers use.
 */
module Dates {
  import opened Wrappers
  import opened Text

  // ---------------------------------------------------------------------
  // Calendar
  // ---------------------------------------------------------------------

  /** The fields of a `datetime` (no microseconds and no time zone are ever set). */
  datatype DateTime = DateTime(year: int, month: int, day: int, hour: int, minute: int, second: int)

  /** Gregorian leap years. */
  predicate IsLeapYear(y: int) {
    y % 4 == 0 && (y % 100 != 0 || y % 400 == 0)
  }

  function DaysInMonth(y: int, m: int): (r: int)
    requires 1 <= m <= 12
    ensures 28 <= r <= 31
  {
    if m == 2 then (if IsLeapYear(y) then 29 else 28)
    else if m == 4 || m == 6 || m == 9 || m == 11 then 30
    else 31
  }

  /**
   * What the `datetime` constructor accepts: a year from 1 to 9999, a day
   * that exists in its month, and a time of day with seconds below 60.
   */
  predicate Valid(dt: DateTime) {
    1 <= dt.year <= 9999 && 1 <= dt.month <= 12 && 1 <= dt.day <= DaysInMonth(dt.year, dt.month)
    && 0 <= dt.hour <= 23 && 0 <= dt.minute <= 59 && 0 <= dt.second <= 59
  }

  // ---------------------------------------------------------------------
  // Decimal digits
  // ---------------------------------------------------------------------

  predicate IsDigit(c: char) {
    '0' <= c <= '9'
  }

  predicate AllDigits(s: string) {
    forall i :: 0 <= i < |s| ==> IsDigit(s[i])
  }

  /** The number a string of decimal digits denotes, as `int(s)`. */
  function Value(s: string): nat
    requires AllDigits(s)
    decreases |s|
  {
    if s == [] then 0 else Value(s[..|s| - 1]) * 10 + (s[|s| - 1] as int - '0' as int)
  }

  function Digit(d: int): (c: char)
    requires 0 <= d <= 9
    ensures IsDigit(c) && c as int - '0' as int == d
  {
    ('0' as int + d) as char
  }

  /** A single digit denotes its own value. */
  lemma ValueOfOne(a: char)
    requires IsDigit(a)
    ensures AllDigits([a]) && Value([a]) == a as int - '0' as int
  {
    assert [a][..0] == [];
  }

  /** Two digits appended shift the value by two places. */
  lemma ValueAppend2(a: string, b: string)
    requires AllDigits(a) && AllDigits(b) && |b| == 2
    ensures AllDigits(a + b) && Value(a + b) == Value(a) * 100 + Value(b)
  {
    var s := a + b;
    var c := a + [b[0]];
    assert s[..|s| - 1] == c;
    assert c[..|c| - 1] == a;
    var d0, d1 := b[0] as int - '0' as int, b[1] as int - '0' as int;
    assert Value(c) == Value(a) * 10 + d0;
    assert Value(s) == Value(c) * 10 + d1;
    assert b[..1] == [b[0]];
    ValueOfOne(b[0]);
    assert Value(b) == d0 * 10 + d1;
  }

  /** `%02d`: a number below 100 as exactly two digits. */
  function Pad2(n: int): (r: string)
    requires 0 <= n <= 99
    ensures |r| == 2 && AllDigits(r) && Value(r) == n
  {
    var r := [Digit(n / 10), Digit(n % 10)];
    assert r[..1] == [r[0]];
    ValueOfOne(r[0]);
    r
  }

  /** `%04d`: a number below 10000 as exactly four digits. */
  function Pad4(n: int): (r: string)
    requires 0 <= n <= 9999
    ensures |r| == 4 && AllDigits(r) && Value(r) == n
  {
    ValueAppend2(Pad2(n / 100), Pad2(n % 100));
    Pad2(n / 100) + Pad2(n % 100)
  }

  /** A number below 100 without padding, as AppleScript prints the hour. */
  function Unpadded(n: int): (r: string)
    requires 0 <= n <= 99
    ensures 1 <= |r| <= 2 && AllDigits(r) && Value(r) == n
  {
    if n < 10 then
      var r := [Digit(n)];
      assert r[..0] == [];
      r
    else Pad2(n)
  }

  // ---------------------------------------------------------------------
  // The fields of the strptime formats
  // ---------------------------------------------------------------------

  /**
   * One or two ASCII digits: the shape every numeric directive except `%Y`
   * admits. The regular-expression alternatives of `%d`, `%I`, `%m`, `%M`
   * and `%S` accept exactly the one- and two-digit strings whose value lies
   * in the directive's range, which the callers check.
   */
  function ShortNumber(t: string): (r: Option<int>)
    ensures r.Some? <==> 1 <= |t| <= 2 && AllDigits(t)
    ensures r.Some? ==> r.value == Value(t)
  {
    if 1 <= |t| <= 2 && AllDigits(t) then Some(Value(t)) else None
  }

  function InRange(n: Option<int>, lo: int, hi: int): (r: Option<int>)
    ensures r.Some? <==> n.Some? && lo <= n.value <= hi
    ensures r.Some? ==> r == n
  {
    if n.Some? && lo <= n.value <= hi then n else None
  }

  /** `%d` where whitespace precedes it: 1 to 31. */
  function DayField(t: string): Option<int> {
    InRange(ShortNumber(t), 1, 31)
  }

  /** `%I`: 1 to 12. */
  function Hour12Field(t: string): Option<int> {
    InRange(ShortNumber(t), 1, 12)
  }

  /** `%m`: 1 to 12. */
  function MonthField(t: string): Option<int> {
    InRange(ShortNumber(t), 1, 12)
  }

  /** `%M`: 0 to 59. */
  function MinuteField(t: string): Option<int> {
    InRange(ShortNumber(t), 0, 59)
  }

  /** `%S`: 0 to 61; the `datetime` constructor then refuses 60 and 61. */
  function SecondField(t: string): Option<int> {
    InRange(ShortNumber(t), 0, 61)
  }

  /** `%Y`: exactly four digits. */
  function YearField(t: string): (r: Option<int>)
    ensures r.Some? <==> |t| == 4 && AllDigits(t)
    ensures r.Some? ==> r.value == Value(t)
  {
    if |t| == 4 && AllDigits(t) then Some(Value(t)) else None
  }

  /**
   * `%d` with nothing in front of it to absorb a blank: its pattern also has
   * the alternative ` [1-9]`, a space and one non-zero digit.
   */
  function DateDayField(t: string): (r: Option<int>)
    ensures r.Some? ==> 1 <= r.value <= 31
  {
    if |t| == 2 && t[0] == ' ' && '1' <= t[1] <= '9' then Some(t[1] as int - '0' as int)
    else DayField(t)
  }

  /** `%p` in the English locale: `AM` or `PM` in any case; true for PM. */
  function Meridiem(t: string): (r: Option<bool>)
    ensures r.Some? <==> |t| == 2 && AsciiLower(t[1]) == 'm' && (AsciiLower(t[0]) == 'a' || AsciiLower(t[0]) == 'p')
    ensures r.Some? ==> (r.value <==> AsciiLower(t[0]) == 'p')
  {
    if EqualsIgnoreCase(t, "am") then Some(false)
    else if EqualsIgnoreCase(t, "pm") then Some(true)
    else None
  }

  /**
   * How strptime combines `%I` with `%p`: 12 AM is hour 0, a PM hour other
   * than 12 gains 12, every other hour stays.
   */
  function To24(h12: int, pm: bool): (h: int)
    requires 1 <= h12 <= 12
    ensures 0 <= h <= 23
  {
    if pm then (if h12 == 12 then 12 else h12 + 12)
    else (if h12 == 12 then 0 else h12)
  }

  /** The 12-hour reading of a 24-hour hour: the `%I` hour and whether it is PM. */
  function To12(h: int): (r: (int, bool))
    requires 0 <= h <= 23
    ensures 1 <= r.0 <= 12
  {
    if h == 0 then (12, false)
    else if h < 12 then (h, false)
    else if h == 12 then (12, true)
    else (h - 12, true)
  }

  /** Reading a 24-hour hour on the 12-hour clock and back gives the hour. */
  lemma To24OfTo12(h: int)
    requires 0 <= h <= 23
    ensures To24(To12(h).0, To12(h).1) == h
    ensures To12(h).1 <==> h >= 12
  {
  }

  /** Every 12-hour reading is the reading of exactly the hour it converts to. */
  lemma To12OfTo24(h12: int, pm: bool)
    requires 1 <= h12 <= 12
    ensures To12(To24(h12, pm)) == (h12, pm)
  {
  }

  // ---------------------------------------------------------------------
  // English names
  // ---------------------------------------------------------------------

  const MonthNames: seq<string> := ["January", "February", "March", "April", "May", "June",
    "July", "August", "September", "October", "November", "December"]

  const WeekdayNames: seq<string> := ["Monday", "Tuesday", "Wednesday", "Thursday", "Friday",
    "Saturday", "Sunday"]

  /**
   * The position of the first name equal to `w` up to ASCII case. strptime
   * matches `%A` and `%B` case-insensitively and then looks the lower-cased
   * match up in the lower-cased names, which admits ASCII case only.
   */
  function NameIndex(names: seq<string>, w: string): (r: Option<nat>)
    ensures r.Some? ==> r.value < |names| && EqualsIgnoreCase(w, names[r.value])
    ensures r.Some? ==> forall i :: 0 <= i < r.value ==> !EqualsIgnoreCase(w, names[i])
    ensures r.None? ==> forall i :: 0 <= i < |names| ==> !EqualsIgnoreCase(w, names[i])
    decreases |names|
  {
    if names == [] then None
    else if EqualsIgnoreCase(w, names[0]) then Some(0)
    else match NameIndex(names[1..], w)
      case None => None
      case Some(i) => Some(i + 1)
  }

  /** `%B`: the number of the month `w` names. */
  function MonthOf(w: string): (r: Option<int>)
    ensures r.Some? ==> 1 <= r.value <= 12 && EqualsIgnoreCase(w, MonthNames[r.value - 1])
    ensures r.None? ==> forall i :: 0 <= i < 12 ==> !EqualsIgnoreCase(w, MonthNames[i])
  {
    match NameIndex(MonthNames, w)
    case None => None
    case Some(i) => Some(i + 1)
  }

  /** `%A` followed by the format's comma: a weekday name and a comma. */
  predicate IsWeekdayWord(w: string) {
    w != [] && w[|w| - 1] == ',' && NameIndex(WeekdayNames, w[..|w| - 1]).Some?
  }

  // ---------------------------------------------------------------------
  // Words
  // ---------------------------------------------------------------------

  /** The longest prefix of `s` without whitespace. */
  function WordPrefix(s: string): (w: string)
    ensures |w| <= |s|
    ensures s != [] && !IsSpace(s[0]) ==> w != []
    decreases |s|
  {
    if s == [] || IsSpace(s[0]) then [] else [s[0]] + WordPrefix(s[1..])
  }

  /** The first word is a prefix without whitespace that ends at whitespace or at the end. */
  lemma {:induction false} WordPrefixIsWord(s: string)
    ensures var w := WordPrefix(s); w == s[..|w|] && NoSpace(w) && (|w| < |s| ==> IsSpace(s[|w|]))
    decreases |s|
  {
    if s != [] && !IsSpace(s[0]) {
      var w := WordPrefix(s[1..]);
      WordPrefixIsWord(s[1..]);
      assert s[..|w| + 1] == [s[0]] + s[1..][..|w|];
    }
  }

  /**
   * `s.split()`: the maximal runs of non-whitespace characters. Every space
   * in the long-date formats stands for `\s+` and no field of them contains
   * whitespace, so a string has the layout of such a format exactly when it
   * has no whitespace at either end and its words are the format's fields.
   */
  function Words(s: string): seq<string>
    decreases |s|
  {
    var t := LStrip(s);
    if t == [] then []
    else
      var w := WordPrefix(t);
      [w] + Words(t[|w|..])
  }

  /** Every word is non-empty and free of whitespace. */
  lemma {:induction false} WordsAreWords(s: string)
    ensures AreWords(Words(s))
    decreases |s|
  {
    var t := LStrip(s);
    if t != [] {
      var w := WordPrefix(t);
      WordPrefixIsWord(t);
      WordsAreWords(t[|w|..]);
      AreWordsCons(w, Words(t[|w|..]));
    }
  }

  /** The prefix that ends at a blank or at the end is the first word. */
  lemma {:induction false} WordPrefixOf(w: string, rest: string)
    requires NoSpace(w)
    requires rest == [] || IsSpace(rest[0])
    ensures WordPrefix(w + rest) == w
    decreases |w|
  {
    if w == [] {
      assert w + rest == rest;
    } else {
      assert (w + rest)[1..] == w[1..] + rest;
      WordPrefixOf(w[1..], rest);
      assert [w[0]] + w[1..] == w;
    }
  }

  /** Every element is a word: non-empty and without whitespace. */
  predicate AreWords(ws: seq<string>) {
    forall i :: 0 <= i < |ws| ==> ws[i] != [] && NoSpace(ws[i])
  }

  /** A word in front of words gives words. */
  lemma AreWordsCons(w: string, ws: seq<string>)
    requires w != [] && NoSpace(w) && AreWords(ws)
    ensures AreWords([w] + ws)
  {
    assert forall i :: 1 <= i < |[w] + ws| ==> ([w] + ws)[i] == ws[i - 1];
  }

  /** The words after the first are words. */
  lemma AreWordsTail(ws: seq<string>)
    requires AreWords(ws) && ws != []
    ensures ws[0] != [] && NoSpace(ws[0]) && AreWords(ws[1..])
  {
    assert forall i :: 0 <= i < |ws| - 1 ==> ws[1..][i] == ws[i + 1];
  }

  /** A word on its own is its only word. */
  lemma WordsOfWord(w: string)
    requires w != [] && NoSpace(w)
    ensures Words(w) == [w]
  {
    WordPrefixOf(w, []);
    assert w + [] == w;
    assert w[|w|..] == [];
  }

  /** A word, a space and text that starts with a word: the first word comes off. */
  lemma WordsOfCons(w: string, j: string)
    requires w != [] && NoSpace(w)
    requires j != [] && !IsSpace(j[0])
    ensures Words(w + ([' '] + j)) == [w] + Words(j)
  {
    var s := w + ([' '] + j);
    assert s[0] == w[0];
    WordPrefixOf(w, [' '] + j);
    assert s[|w|..] == [' '] + j;
    assert ([' '] + j)[1..] == j;
    assert LStrip([' '] + j) == j;
  }

  /** Joined non-empty words start with the first word's first character and end with the last word's last. */
  lemma {:induction false} JoinEnds(ws: seq<string>)
    requires |ws| >= 1
    requires forall i :: 0 <= i < |ws| ==> ws[i] != []
    ensures var j := Join(ws, ' '); var l := ws[|ws| - 1];
      j != [] && j[0] == ws[0][0] && j[|j| - 1] == l[|l| - 1]
    decreases |ws|
  {
    if |ws| > 1 {
      JoinEnds(ws[1..]);
    }
  }

  /** Words with no whitespace, joined by single spaces, have no whitespace at either end. */
  lemma JoinTrimmed(ws: seq<string>)
    requires AreWords(ws)
    ensures Trimmed(Join(ws, ' '))
  {
    if |ws| >= 1 {
      JoinEnds(ws);
    }
  }

  /** Joining two or more words: the first word comes off the front. */
  lemma WordsOfJoinStep(ws: seq<string>)
    requires |ws| > 1
    requires AreWords(ws)
    ensures Words(Join(ws, ' ')) == [ws[0]] + Words(Join(ws[1..], ' '))
  {
    var j := Join(ws[1..], ' ');
    assert Join(ws, ' ') == ws[0] + ([' '] + j);
    AreWordsTail(ws);
    JoinEnds(ws[1..]);
    WordsOfCons(ws[0], j);
  }

  /** Words with no whitespace, joined by single spaces, split back into the same words. */
  lemma {:induction false} WordsOfJoin(ws: seq<string>)
    requires AreWords(ws)
    ensures Words(Join(ws, ' ')) == ws
    decreases |ws|
  {
    if |ws| == 1 {
      assert Join(ws, ' ') == ws[0];
      WordsOfWord(ws[0]);
      assert ws == [ws[0]];
    } else if |ws| > 1 {
      var rest := ws[1..];
      AreWordsTail(ws);
      WordsOfJoinStep(ws);
      WordsOfJoin(rest);
      assert ws == [ws[0]] + rest;
    }
  }

  // ---------------------------------------------------------------------
  // parse_applescript_date
  // ---------------------------------------------------------------------

  /** `%I:%M:%S`: the 12-hour hour, the minute and the second (at most 61). */
  function Clock(t: string): (r: Option<(int, int, int)>)
    ensures r.Some? ==> 1 <= r.value.0 <= 12 && 0 <= r.value.1 <= 59 && 0 <= r.value.2 <= 61
  {
    var parts := Split(t, ':');
    if |parts| != 3 then None
    else
      var h, m, s := Hour12Field(parts[0]), MinuteField(parts[1]), SecondField(parts[2]);
      if h.Some? && m.Some? && s.Some? then Some((h.value, m.value, s.value)) else None
  }

  /** `%d` followed by the format's comma. */
  function DayWord(w: string): (r: Option<int>)
    ensures r.Some? ==> 1 <= r.value <= 31
  {
    if w != [] && w[|w| - 1] == ',' then DayField(w[..|w| - 1]) else None
  }

  /**
   * The six fields of `%B %d, %Y at %I:%M:%S %p`, one per word: the month
   * name, the day with its comma, the year, `at`, the clock reading and the
   * meridiem. The result is the date they denote, when it exists.
   */
  function DateOfWords(ws: seq<string>): (r: Option<DateTime>)
    requires |ws| == 6
    ensures r.Some? ==> Valid(r.value)
  {
    var month := MonthOf(ws[0]);
    var day := DayWord(ws[1]);
    var year := YearField(ws[2]);
    var clock := Clock(ws[4]);
    var pm := Meridiem(ws[5]);
    if month.Some? && day.Some? && year.Some? && EqualsIgnoreCase(ws[3], "at") && clock.Some? && pm.Some? then
      var dt := DateTime(year.value, month.value, day.value,
                         To24(clock.value.0, pm.value), clock.value.1, clock.value.2);
      if Valid(dt) then Some(dt) else None
    else
      None
  }

  /** `datetime.strptime(s, "%B %d, %Y at %I:%M:%S %p")`, or `None` where it raises. */
  function ParseLongDate(s: string): (r: Option<DateTime>)
    ensures r.Some? ==> Valid(r.value) && Trimmed(s) && |Words(s)| == 6
  {
    var ws := Words(s);
    if Trimmed(s) && |ws| == 6 then DateOfWords(ws) else None
  }

  /**
   * `datetime.strptime(s, "%A, %B %d, %Y at %I:%M:%S %p")`, or `None` where
   * it raises. The weekday has to be a weekday name but is not checked
   * against the date: strptime ignores `%A` when the date is complete.
   */
  function ParseWeekdayDate(s: string): (r: Option<DateTime>)
    ensures r.Some? ==> Valid(r.value) && Trimmed(s) && |Words(s)| == 7
  {
    var ws := Words(s);
    if Trimmed(s) && |ws| == 7 && IsWeekdayWord(ws[0]) then DateOfWords(ws[1..]) else None
  }

  /** `dt.strftime("%Y-%m-%dT%H:%M:%S")`. */
  function Iso(dt: DateTime): (r: string)
    requires Valid(dt)
    ensures IsoShaped(r)
  {
    var y, mo, d := Pad4(dt.year), Pad2(dt.month), Pad2(dt.day);
    var h, mi, s := Pad2(dt.hour), Pad2(dt.minute), Pad2(dt.second);
    var r := y + "-" + mo + "-" + d + "T" + h + ":" + mi + ":" + s;
    assert r[0..4] == y && r[5..7] == mo && r[8..10] == d;
    assert r[11..13] == h && r[14..16] == mi && r[17..19] == s;
    r
  }

  /**
   * `parse_applescript_date`: the weekday form first, then the form
   * without a weekday, each rendered in ISO 8601; any other input comes back
   * unchanged.
   */
  function ParseAppleScriptDate(s: string): (r: string)
    ensures r == s || IsoShaped(r)
  {
    match ParseWeekdayDate(s)
    case Some(dt) => Iso(dt)
    case None =>
      match ParseLongDate(s)
      case Some(dt) => Iso(dt)
      case None => s
  }

  /** The weekday form is tried first. */
  lemma WeekdayFormFirst(s: string)
    requires ParseWeekdayDate(s).Some?
    ensures ParseAppleScriptDate(s) == Iso(ParseWeekdayDate(s).value)
  {
  }

  /** The two forms never both match: one has six words, the other seven. */
  lemma FormsExclusive(s: string)
    ensures !(ParseWeekdayDate(s).Some? && ParseLongDate(s).Some?)
  {
  }

  /** The ISO rendering is the fixed-width `YYYY-MM-DDTHH:MM:SS`. */
  predicate IsoShaped(r: string) {
    |r| == 19
    && r[4] == '-' && r[7] == '-' && r[10] == 'T' && r[13] == ':' && r[16] == ':'
    && AllDigits(r[0..4]) && AllDigits(r[5..7]) && AllDigits(r[8..10])
    && AllDigits(r[11..13]) && AllDigits(r[14..16]) && AllDigits(r[17..19])
  }

  /** The fields of a date, read back from its ISO rendering. */
  function IsoFields(r: string): (dt: DateTime)
    requires IsoShaped(r)
  {
    DateTime(Value(r[0..4]), Value(r[5..7]), Value(r[8..10]),
             Value(r[11..13]), Value(r[14..16]), Value(r[17..19]))
  }

  /** Every date renders in the fixed-width shape, and the rendering determines the date. */
  lemma IsoShape(dt: DateTime)
    requires Valid(dt)
    ensures IsoShaped(Iso(dt)) && IsoFields(Iso(dt)) == dt
  {
    var r := Iso(dt);
    var y, mo, d := Pad4(dt.year), Pad2(dt.month), Pad2(dt.day);
    var h, mi, s := Pad2(dt.hour), Pad2(dt.minute), Pad2(dt.second);
    assert r == y + "-" + mo + "-" + d + "T" + h + ":" + mi + ":" + s;
    assert r[0..4] == y && r[5..7] == mo && r[8..10] == d;
    assert r[11..13] == h && r[14..16] == mi && r[17..19] == s;
  }

  /** Distinct dates have distinct ISO renderings. */
  lemma IsoInjective(a: DateTime, b: DateTime)
    requires Valid(a) && Valid(b) && Iso(a) == Iso(b)
    ensures a == b
  {
    IsoShape(a);
    IsoShape(b);
  }

  /** An ISO rendering is one word, so converting it again changes nothing. */
  lemma IsoIsOneWord(dt: DateTime)
    requires Valid(dt)
    ensures Words(Iso(dt)) == [Iso(dt)]
  {
    var r := Iso(dt);
    IsoShape(dt);
    forall i | 0 <= i < |r| ensures !IsSpace(r[i]) {
      if i < 4 { assert r[i] == r[0..4][i]; }
      else if 4 < i < 7 { assert r[i] == r[5..7][i - 5]; }
      else if 7 < i < 10 { assert r[i] == r[8..10][i - 8]; }
      else if 10 < i < 13 { assert r[i] == r[11..13][i - 11]; }
      else if 13 < i < 16 { assert r[i] == r[14..16][i - 14]; }
      else if 16 < i { assert r[i] == r[17..19][i - 17]; }
    }
    WordsOfWord(r);
  }

  /** An ISO rendering is not an AppleScript date: it comes back unchanged. */
  lemma IsoUnchanged(dt: DateTime)
    requires Valid(dt)
    ensures ParseAppleScriptDate(Iso(dt)) == Iso(dt)
  {
    IsoIsOneWord(dt);
    OneWordUnchanged(Iso(dt));
  }

  /** A single word matches neither format and comes back unchanged. */
  lemma OneWordUnchanged(s: string)
    requires |Words(s)| == 1
    ensures ParseAppleScriptDate(s) == s
  {
    assert ParseWeekdayDate(s) == None;
    assert ParseLongDate(s) == None;
  }

  /** Converting twice is converting once: what comes out is never converted again. */
  lemma ParseAppleScriptDateIdempotent(s: string)
    ensures ParseAppleScriptDate(ParseAppleScriptDate(s)) == ParseAppleScriptDate(s)
  {
    match ParseWeekdayDate(s)
    case Some(dt) => IsoUnchanged(dt);
    case None =>
      match ParseLongDate(s)
      case Some(dt) => IsoUnchanged(dt);
      case None =>
  }

  /** Whitespace at either end defeats both formats: the input comes back verbatim. */
  lemma UntrimmedUnchanged(s: string)
    requires !Trimmed(s)
    ensures ParseAppleScriptDate(s) == s
  {
  }

  // ---------------------------------------------------------------------
  // to_applescript_date and the round trips
  // ---------------------------------------------------------------------

  /** `dt.strftime("%B %d, %Y")`: the month name, the two-digit day and the four-digit year. */
  function ToAppleScriptDate(dt: DateTime): (r: string)
    requires Valid(dt)
    ensures var name := MonthNames[dt.month - 1]; var n := |name|;
      |r| == n + 9 && r[..n] == name && r[n] == ' '
      && AllDigits(r[n + 1..n + 3]) && Value(r[n + 1..n + 3]) == dt.day && r[n + 3..n + 5] == ", "
      && AllDigits(r[n + 5..]) && Value(r[n + 5..]) == dt.year
  {
    var name, d, y := MonthNames[dt.month - 1], Pad2(dt.day), Pad4(dt.year);
    var r := name + " " + d + ", " + y;
    var n := |name|;
    assert r[..n] == name && r[n] == ' ' && r[n + 1..n + 3] == d && r[n + 3..n + 5] == ", " && r[n + 5..] == y;
    r
  }

  /** The meridiem as AppleScript prints it. */
  function MeridiemText(pm: bool): string {
    if pm then "PM" else "AM"
  }

  /** The clock part of an AppleScript date: `H:MM:SS` on the 12-hour clock. */
  function ClockText(dt: DateTime): string
    requires Valid(dt)
  {
    Unpadded(To12(dt.hour).0) + ":" + Pad2(dt.minute) + ":" + Pad2(dt.second)
  }

  /** The time part of an AppleScript date: ` at H:MM:SS AM` or ` at H:MM:SS PM`. */
  function TimeText(dt: DateTime): string
    requires Valid(dt)
  {
    " at " + ClockText(dt) + " " + MeridiemText(To12(dt.hour).1)
  }

  /** The words of a long date: the six fields of the format without a weekday. */
  function LongDateWords(dt: DateTime): seq<string>
    requires Valid(dt)
  {
    [MonthNames[dt.month - 1], Pad2(dt.day) + ",", Pad4(dt.year), "at", ClockText(dt),
     MeridiemText(To12(dt.hour).1)]
  }

  /** Equality up to ASCII case relates the lengths and each pair of characters. */
  lemma EqualsIgnoreCaseAt(a: string, b: string, k: nat)
    requires EqualsIgnoreCase(a, b) && k < |a|
    ensures |a| == |b| && AsciiLower(a[k]) == AsciiLower(b[k])
  {
  }

  lemma EqualsIgnoreCaseReflexive(a: string)
    ensures EqualsIgnoreCase(a, a)
  {
  }

  /** No two month names are equal up to case: they differ in length, first or third letter. */
  lemma MonthNamesDistinct(i: int, j: int)
    requires 0 <= i < j < 12
    ensures !EqualsIgnoreCase(MonthNames[j], MonthNames[i])
  {
    var a, b := MonthNames[j], MonthNames[i];
    if EqualsIgnoreCase(a, b) {
      EqualsIgnoreCaseAt(a, b, 0);
      EqualsIgnoreCaseAt(a, b, 2);
      assert false;
    }
  }

  /** The name found for the `k`-th name is `k` when no earlier name matches it. */
  lemma NameIndexOf(names: seq<string>, k: nat)
    requires k < |names|
    requires forall j :: 0 <= j < k ==> !EqualsIgnoreCase(names[k], names[j])
    ensures NameIndex(names, names[k]) == Some(k)
  {
    assert EqualsIgnoreCase(names[k], names[k]);
  }

  /** `%B` reads every month name `%B` prints as its own month. */
  lemma MonthOfName(m: int)
    requires 1 <= m <= 12
    ensures MonthOf(MonthNames[m - 1]) == Some(m)
  {
    forall j | 0 <= j < m - 1
      ensures !EqualsIgnoreCase(MonthNames[m - 1], MonthNames[j])
    {
      MonthNamesDistinct(j, m - 1);
    }
    NameIndexOf(MonthNames, m - 1);
  }

  /** The clock text splits back into its hour, minute and second. */
  lemma ClockOfText(dt: DateTime)
    requires Valid(dt)
    ensures Clock(ClockText(dt)) == Some((To12(dt.hour).0, dt.minute, dt.second))
  {
    var h, mi, s := Unpadded(To12(dt.hour).0), Pad2(dt.minute), Pad2(dt.second);
    var parts := [h, mi, s];
    assert ':' !in h && ':' !in mi && ':' !in s;
    assert parts[1..] == [mi, s] && parts[1..][1..] == [s];
    assert Join(parts[1..], ':') == mi + [':'] + s;
    assert Join(parts, ':') == h + [':'] + (mi + [':'] + s);
    assert ClockText(dt) == Join(parts, ':');
    SplitJoin(parts, ':');
  }

  /** `%p` reads back the meridiem AppleScript prints. */
  lemma MeridiemOfText(pm: bool)
    ensures Meridiem(MeridiemText(pm)) == Some(pm)
  {
    var t := MeridiemText(pm);
    assert AsciiLower(t[0]) == (if pm then 'p' else 'a') && AsciiLower(t[1]) == 'm';
    if pm {
      assert AsciiLower(t[0]) != AsciiLower("am"[0]);
    }
  }

  /** The day with its comma reads back as the day. */
  lemma DayWordOfText(d: int)
    requires 1 <= d <= 31
    ensures DayWord(Pad2(d) + ",") == Some(d)
  {
    var w := Pad2(d) + ",";
    assert w[..|w| - 1] == Pad2(d);
  }

  /** Six words whose fields read as the parts of a valid date denote that date. */
  lemma DateOfFields(ws: seq<string>, dt: DateTime, h12: int, pm: bool)
    requires |ws| == 6 && Valid(dt) && 1 <= h12 <= 12 && To24(h12, pm) == dt.hour
    requires MonthOf(ws[0]) == Some(dt.month) && DayWord(ws[1]) == Some(dt.day)
    requires YearField(ws[2]) == Some(dt.year) && EqualsIgnoreCase(ws[3], "at")
    requires Clock(ws[4]) == Some((h12, dt.minute, dt.second)) && Meridiem(ws[5]) == Some(pm)
    ensures DateOfWords(ws) == Some(dt)
  {
  }

  /** The date fields of a long date's words read back as the date's parts. */
  lemma LongDateDateFields(dt: DateTime)
    requires Valid(dt)
    ensures var ws := LongDateWords(dt);
      MonthOf(ws[0]) == Some(dt.month) && DayWord(ws[1]) == Some(dt.day) && YearField(ws[2]) == Some(dt.year)
  {
    MonthOfName(dt.month);
    DayWordOfText(dt.day);
  }

  /** The time fields of a long date's words read back as the date's time of day. */
  lemma LongDateTimeFields(dt: DateTime)
    requires Valid(dt)
    ensures var ws := LongDateWords(dt); var h12, pm := To12(dt.hour).0, To12(dt.hour).1;
      EqualsIgnoreCase(ws[3], "at") && Clock(ws[4]) == Some((h12, dt.minute, dt.second))
      && Meridiem(ws[5]) == Some(pm) && To24(h12, pm) == dt.hour
  {
    ClockOfText(dt);
    MeridiemOfText(To12(dt.hour).1);
    To24OfTo12(dt.hour);
    EqualsIgnoreCaseReflexive("at");
  }

  /** The words of a long date denote the date. */
  lemma DateOfLongDateWords(dt: DateTime)
    requires Valid(dt)
    ensures DateOfWords(LongDateWords(dt)) == Some(dt)
  {
    LongDateDateFields(dt);
    LongDateTimeFields(dt);
    DateOfFields(LongDateWords(dt), dt, To12(dt.hour).0, To12(dt.hour).1);
  }

  /** Digits are not whitespace. */
  lemma NoSpaceOfDigits(s: string)
    requires AllDigits(s)
    ensures NoSpace(s)
  {
  }

  /** Text without whitespace stays so when joined by a character that is not whitespace. */
  lemma NoSpaceJoined(a: string, c: char, b: string)
    requires NoSpace(a) && !IsSpace(c) && NoSpace(b)
    ensures NoSpace(a + [c] + b)
  {
    var s := a + [c] + b;
    forall i | 0 <= i < |s| ensures !IsSpace(s[i]) {
      if i < |a| { assert s[i] == a[i]; }
      else if i > |a| { assert s[i] == b[i - |a| - 1]; }
    }
  }

  /** The month names of the first half of the year are words. */
  lemma FirstHalfMonthNameIsWord(i: int)
    requires 0 <= i < 6
    ensures MonthNames[i] != [] && NoSpace(MonthNames[i])
  {
    if i == 0 { assert MonthNames[0] == "January"; }
    else if i == 1 { assert MonthNames[1] == "February"; }
    else if i == 2 { assert MonthNames[2] == "March"; }
    else if i == 3 { assert MonthNames[3] == "April"; }
    else if i == 4 { assert MonthNames[4] == "May"; }
    else { assert MonthNames[5] == "June"; }
  }

  /** The month names of the second half of the year are words. */
  lemma SecondHalfMonthNameIsWord(i: int)
    requires 6 <= i < 12
    ensures MonthNames[i] != [] && NoSpace(MonthNames[i])
  {
    if i == 6 { assert MonthNames[6] == "July"; }
    else if i == 7 { assert MonthNames[7] == "August"; }
    else if i == 8 { assert MonthNames[8] == "September"; }
    else if i == 9 { assert MonthNames[9] == "October"; }
    else if i == 10 { assert MonthNames[10] == "November"; }
    else { assert MonthNames[11] == "December"; }
  }

  /** The English month names are words. */
  lemma MonthNamesAreWords()
    ensures AreWords(MonthNames)
  {
    forall i | 0 <= i < 12 ensures MonthNames[i] != [] && NoSpace(MonthNames[i]) {
      if i < 6 { FirstHalfMonthNameIsWord(i); } else { SecondHalfMonthNameIsWord(i); }
    }
  }

  /** The English weekday names are words. */
  lemma WeekdayNamesAreWords()
    ensures AreWords(WeekdayNames)
  {
    forall i | 0 <= i < 7 ensures WeekdayNames[i] != [] && NoSpace(WeekdayNames[i]) {
      assert i == 0 || i == 1 || i == 2 || i == 3 || i == 4 || i == 5 || i == 6;
    }
  }

  /** The clock text is one word. */
  lemma ClockTextIsWord(dt: DateTime)
    requires Valid(dt)
    ensures ClockText(dt) != [] && NoSpace(ClockText(dt))
  {
    var h, mi, s := Unpadded(To12(dt.hour).0), Pad2(dt.minute), Pad2(dt.second);
    NoSpaceOfDigits(h);
    NoSpaceOfDigits(mi);
    NoSpaceOfDigits(s);
    NoSpaceJoined(h, ':', mi);
    NoSpaceJoined(h + [':'] + mi, ':', s);
  }

  /** The words of a long date are non-empty and free of whitespace. */
  lemma LongDateWordsClean(dt: DateTime)
    requires Valid(dt)
    ensures AreWords(LongDateWords(dt))
  {
    var ws := LongDateWords(dt);
    MonthNamesAreWords();
    NoSpaceOfDigits(Pad2(dt.day));
    NoSpaceJoined(Pad2(dt.day), ',', []);
    assert Pad2(dt.day) + [','] + [] == ws[1];
    NoSpaceOfDigits(Pad4(dt.year));
    ClockTextIsWord(dt);
    forall i | 0 <= i < 6 ensures ws[i] != [] && NoSpace(ws[i]) {
      assert i == 0 || i == 1 || i == 2 || i == 3 || i == 4 || i == 5;
    }
  }

  /** Joining a word in front of a list of words puts one space between. */
  lemma JoinCons(w: string, ws: seq<string>)
    requires ws != []
    ensures Join([w] + ws, ' ') == w + ([' '] + Join(ws, ' '))
  {
    assert ([w] + ws)[1..] == ws;
  }

  /** The layout of `%B %d, %Y at %I:%M:%S %p`, for any field texts. */
  lemma LongDateLayout(m: string, d: string, y: string, c: string, p: string)
    ensures m + " " + d + ", " + y + " at " + c + " " + p == Join([m, d + ",", y, "at", c, p], ' ')
  {
    var ws := [m, d + ",", y, "at", c, p];
    assert ws == [m] + ([d + ","] + ([y] + (["at"] + ([c] + [p]))));
    JoinCons(c, [p]);
    JoinCons("at", [c] + [p]);
    JoinCons(y, ["at"] + ([c] + [p]));
    JoinCons(d + ",", [y] + (["at"] + ([c] + [p])));
    JoinCons(m, [d + ","] + ([y] + (["at"] + ([c] + [p]))));
  }

  /** The long date without a weekday, as text, is its words joined by single spaces. */
  lemma LongDateText(dt: DateTime)
    requires Valid(dt)
    ensures ToAppleScriptDate(dt) + TimeText(dt) == Join(LongDateWords(dt), ' ')
  {
    var m, d, y := MonthNames[dt.month - 1], Pad2(dt.day), Pad4(dt.year);
    var c, p := ClockText(dt), MeridiemText(To12(dt.hour).1);
    assert ToAppleScriptDate(dt) + TimeText(dt) == m + " " + d + ", " + y + " at " + c + " " + p;
    LongDateLayout(m, d, y, c, p);
  }

  /** Six words joined by single spaces are parsed field by field. */
  lemma ParseLongDateOfWords(ws: seq<string>)
    requires |ws| == 6 && AreWords(ws)
    ensures ParseLongDate(Join(ws, ' ')) == DateOfWords(ws)
  {
    WordsOfJoin(ws);
    JoinTrimmed(ws);
  }

  /** A weekday word in front of six words: the weekday is checked and then dropped. */
  lemma ParseWeekdayDateOfWords(w: string, ws: seq<string>)
    requires IsWeekdayWord(w) && NoSpace(w) && |ws| == 6 && AreWords(ws)
    ensures ParseWeekdayDate(w + ([' '] + Join(ws, ' '))) == DateOfWords(ws)
  {
    var ws' := [w] + ws;
    JoinCons(w, ws);
    assert ws'[1..] == ws;
    assert AreWords(ws') by {
      assert forall i :: 1 <= i < 7 ==> ws'[i] == ws[i - 1];
    }
    WordsOfJoin(ws');
    JoinTrimmed(ws');
  }

  /** Every weekday name with its comma is a weekday word. */
  lemma WeekdayWordOfName(wd: nat)
    requires wd < 7
    ensures var w := WeekdayNames[wd] + ","; IsWeekdayWord(w) && NoSpace(w)
  {
    var name := WeekdayNames[wd];
    WeekdayNamesAreWords();
    NoSpaceJoined(name, ',', []);
    assert name + [','] + [] == name + ",";
    assert (name + ",")[..|name|] == name;
    assert EqualsIgnoreCase(name, WeekdayNames[wd]);
  }

  /** `to_applescript_date` gives three words: the month name, the two-digit day with its comma, the four-digit year. */
  lemma ToAppleScriptDateWords(dt: DateTime)
    requires Valid(dt)
    ensures Words(ToAppleScriptDate(dt)) == [MonthNames[dt.month - 1], Pad2(dt.day) + ",", Pad4(dt.year)]
  {
    var m, d, y := MonthNames[dt.month - 1], Pad2(dt.day), Pad4(dt.year);
    assert ToAppleScriptDate(dt) == m + " " + d + ", " + y;
    MonthNamesAreWords();
    assert m != [] && NoSpace(m);
    MonthDayYearWords(m, d, y);
  }

  /** A name, a blank, digits with a comma, a blank and digits are three words. */
  lemma MonthDayYearWords(m: string, d: string, y: string)
    requires m != [] && NoSpace(m) && d != [] && AllDigits(d) && y != [] && AllDigits(y)
    ensures Words(m + " " + d + ", " + y) == [m, d + ",", y]
  {
    MonthDayYearLayout(m, d, y);
    MonthDayYearAreWords(m, d, y);
    WordsOfJoin([m, d + ",", y]);
  }

  /** The `%B %d, %Y` layout is its three words joined by blanks. */
  lemma MonthDayYearLayout(m: string, d: string, y: string)
    ensures m + " " + d + ", " + y == Join([m, d + ",", y], ' ')
  {
    assert [m, d + ",", y] == [m] + ([d + ","] + [y]);
    JoinCons(d + ",", [y]);
    JoinCons(m, [d + ","] + [y]);
  }

  /** Each of the three fields is non-empty and holds no whitespace. */
  lemma MonthDayYearAreWords(m: string, d: string, y: string)
    requires m != [] && NoSpace(m) && d != [] && AllDigits(d) && y != [] && AllDigits(y)
    ensures AreWords([m, d + ",", y])
  {
    var ws := [m, d + ",", y];
    NoSpaceOfDigits(d);
    NoSpaceJoined(d, ',', []);
    assert d + [','] + [] == d + ",";
    NoSpaceOfDigits(y);
    forall i | 0 <= i < 3 ensures ws[i] != [] && NoSpace(ws[i]) {
      assert i == 0 || i == 1 || i == 2;
    }
  }

  /** A weekday name, a comma and a blank in front of the rest of the text. */
  lemma WeekdayLayout(n: string, a: string, t: string)
    ensures n + ", " + a + t == (n + ",") + ([' '] + (a + t))
  {
  }

  /** A rendered long date with its time converts to the date's ISO form. */
  lemma LongDateRoundTrip(dt: DateTime)
    requires Valid(dt)
    ensures ParseAppleScriptDate(ToAppleScriptDate(dt) + TimeText(dt)) == Iso(dt)
  {
    LongDateText(dt);
    LongDateWordsClean(dt);
    ParseLongDateOfWords(LongDateWords(dt));
    DateOfLongDateWords(dt);
  }

  /**
   * With any weekday name in front, the long date converts to the same ISO
   * form: the weekday is required but not checked against the date.
   */
  lemma WeekdayDateRoundTrip(dt: DateTime, wd: nat)
    requires Valid(dt) && wd < 7
    ensures ParseAppleScriptDate(WeekdayNames[wd] + ", " + ToAppleScriptDate(dt) + TimeText(dt)) == Iso(dt)
  {
    var w := WeekdayNames[wd] + ",";
    var s := WeekdayNames[wd] + ", " + ToAppleScriptDate(dt) + TimeText(dt);
    WeekdayLayout(WeekdayNames[wd], ToAppleScriptDate(dt), TimeText(dt));
    LongDateText(dt);
    LongDateWordsClean(dt);
    WeekdayWordOfName(wd);
    ParseWeekdayDateOfWords(w, LongDateWords(dt));
    DateOfLongDateWords(dt);
    WeekdayFormFirst(s);
  }

  /** A success is the date its fields name: the converse of `DateOfFields`. */
  lemma DateOfWordsFields(ws: seq<string>)
    requires |ws| == 6 && DateOfWords(ws).Some?
    ensures var dt := DateOfWords(ws).value; var c := Clock(ws[4]); var pm := Meridiem(ws[5]);
      MonthOf(ws[0]) == Some(dt.month) && DayWord(ws[1]) == Some(dt.day) && YearField(ws[2]) == Some(dt.year)
      && EqualsIgnoreCase(ws[3], "at") && c.Some? && pm.Some?
      && To24(c.value.0, pm.value) == dt.hour && c.value.1 == dt.minute && c.value.2 == dt.second
  {
  }

  /** Fields naming a day that the month does not have are refused, as the `datetime` constructor does. */
  lemma DateOfWordsRejectsMissingDay(ws: seq<string>)
    requires |ws| == 6
    requires MonthOf(ws[0]).Some? && DayWord(ws[1]).Some? && YearField(ws[2]).Some?
    requires DayWord(ws[1]).value > DaysInMonth(YearField(ws[2]).value, MonthOf(ws[0]).value)
    ensures DateOfWords(ws) == None
  {
  }

  /** A long date that names a day its month lacks matches neither format and comes back verbatim. */
  lemma LongDateRejectsMissingDay(ws: seq<string>)
    requires |ws| == 6 && AreWords(ws)
    requires MonthOf(ws[0]).Some? && DayWord(ws[1]).Some? && YearField(ws[2]).Some?
    requires DayWord(ws[1]).value > DaysInMonth(YearField(ws[2]).value, MonthOf(ws[0]).value)
    ensures ParseAppleScriptDate(Join(ws, ' ')) == Join(ws, ' ')
  {
    DateOfWordsRejectsMissingDay(ws);
    ParseLongDateOfWords(ws);
    WordsOfJoin(ws);
  }

  /** The same with a weekday in front. */
  lemma WeekdayDateRejectsMissingDay(w: string, ws: seq<string>)
    requires IsWeekdayWord(w) && NoSpace(w) && |ws| == 6 && AreWords(ws)
    requires MonthOf(ws[0]).Some? && DayWord(ws[1]).Some? && YearField(ws[2]).Some?
    requires DayWord(ws[1]).value > DaysInMonth(YearField(ws[2]).value, MonthOf(ws[0]).value)
    ensures var s := w + ([' '] + Join(ws, ' ')); ParseAppleScriptDate(s) == s
  {
    DateOfWordsRejectsMissingDay(ws);
    ParseWeekdayDateOfWords(w, ws);
    JoinCons(w, ws);
    AreWordsCons(w, ws);
    WordsOfJoin([w] + ws);
  }

  // Dates from the docstring and the test suite of the source.

  lemma Pad4Of2026()
    ensures Pad4(2026) == "2026"
  {
    assert Pad2(20) == "20" && Pad2(26) == "26";
  }

  lemma Pad2Examples()
    ensures Pad2(0) == "00" && Pad2(1) == "01" && Pad2(9) == "09" && Pad2(14) == "14"
    ensures Pad2(15) == "15" && Pad2(30) == "30"
  {
  }

  /** The rendered long date with its time, from the texts of its pieces. */
  lemma LongDatePieces(dt: DateTime, m: string, d: string, y: string, c: string, p: string)
    requires Valid(dt) && MonthNames[dt.month - 1] == m && Pad2(dt.day) == d && Pad4(dt.year) == y
    requires ClockText(dt) == c && MeridiemText(To12(dt.hour).1) == p
    ensures ToAppleScriptDate(dt) + TimeText(dt) == m + " " + d + ", " + y + " at " + c + " " + p
  {
  }

  /** The ISO rendering, piece by piece. */
  lemma IsoPieces(dt: DateTime)
    requires Valid(dt)
    ensures Iso(dt) == Pad4(dt.year) + "-" + Pad2(dt.month) + "-" + Pad2(dt.day) + "T"
                       + Pad2(dt.hour) + ":" + Pad2(dt.minute) + ":" + Pad2(dt.second)
  {
  }

  // 14 January 2026, 9:00:00

  lemma MorningClock(dt: DateTime)
    requires dt == DateTime(2026, 1, 14, 9, 0, 0)
    ensures ClockText(dt) == "9:00:00"
  {
    Pad2Examples();
    assert Unpadded(9) == "9" && To12(9) == (9, false);
  }

  lemma MorningLayout()
    ensures "January" + " " + "14" + ", " + "2026" + " at " + "9:00:00" + " " + "AM" == "January 14, 2026 at 9:00:00 AM"
  {
  }

  lemma MorningText(dt: DateTime)
    requires dt == DateTime(2026, 1, 14, 9, 0, 0)
    ensures ToAppleScriptDate(dt) + TimeText(dt) == "January 14, 2026 at 9:00:00 AM"
  {
    MorningClock(dt);
    Pad4Of2026();
    Pad2Examples();
    assert MonthNames[0] == "January" && To12(9).1 == false;
    LongDatePieces(dt, "January", "14", "2026", "9:00:00", "AM");
    MorningLayout();
  }

  lemma MorningIso(dt: DateTime)
    requires dt == DateTime(2026, 1, 14, 9, 0, 0)
    ensures Iso(dt) == "2026-01-14T09:00:00"
  {
    IsoPieces(dt);
    Pad4Of2026();
    Pad2Examples();
  }

  /** `January 14, 2026 at 9:00:00 AM` converts to `2026-01-14T09:00:00`. */
  lemma MorningExample()
    ensures ParseAppleScriptDate("January 14, 2026 at 9:00:00 AM") == "2026-01-14T09:00:00"
  {
    var dt := DateTime(2026, 1, 14, 9, 0, 0);
    LongDateRoundTrip(dt);
    MorningText(dt);
    MorningIso(dt);
  }

  // 15 January 2026, 15:30:00

  lemma AfternoonClock(dt: DateTime)
    requires dt == DateTime(2026, 1, 15, 15, 30, 0)
    ensures ClockText(dt) == "3:30:00"
  {
    Pad2Examples();
    assert Unpadded(3) == "3" && To12(15) == (3, true);
  }

  lemma AfternoonLayout()
    ensures "January" + " " + "15" + ", " + "2026" + " at " + "3:30:00" + " " + "PM" == "January 15, 2026 at 3:30:00 PM"
  {
  }

  lemma AfternoonText(dt: DateTime)
    requires dt == DateTime(2026, 1, 15, 15, 30, 0)
    ensures ToAppleScriptDate(dt) + TimeText(dt) == "January 15, 2026 at 3:30:00 PM"
  {
    AfternoonClock(dt);
    Pad4Of2026();
    Pad2Examples();
    assert MonthNames[0] == "January" && To12(15).1 == true;
    LongDatePieces(dt, "January", "15", "2026", "3:30:00", "PM");
    AfternoonLayout();
  }

  lemma AfternoonIso(dt: DateTime)
    requires dt == DateTime(2026, 1, 15, 15, 30, 0)
    ensures Iso(dt) == "2026-01-15T15:30:00"
  {
    IsoPieces(dt);
    Pad4Of2026();
    Pad2Examples();
  }

  /** `January 15, 2026 at 3:30:00 PM` converts to `2026-01-15T15:30:00`. */
  lemma AfternoonExample()
    ensures ParseAppleScriptDate("January 15, 2026 at 3:30:00 PM") == "2026-01-15T15:30:00"
  {
    var dt := DateTime(2026, 1, 15, 15, 30, 0);
    LongDateRoundTrip(dt);
    AfternoonText(dt);
    AfternoonIso(dt);
  }

  // 14 January 2026, 14:30:00

  lemma DocstringClock(dt: DateTime)
    requires dt == DateTime(2026, 1, 14, 14, 30, 0)
    ensures ClockText(dt) == "2:30:00"
  {
    Pad2Examples();
    assert Unpadded(2) == "2" && To12(14) == (2, true);
  }

  lemma DocstringLayout()
    ensures "January" + " " + "14" + ", " + "2026" + " at " + "2:30:00" + " " + "PM" == "January 14, 2026 at 2:30:00 PM"
  {
  }

  lemma DocstringText(dt: DateTime)
    requires dt == DateTime(2026, 1, 14, 14, 30, 0)
    ensures ToAppleScriptDate(dt) + TimeText(dt) == "January 14, 2026 at 2:30:00 PM"
  {
    DocstringClock(dt);
    Pad4Of2026();
    Pad2Examples();
    assert MonthNames[0] == "January" && To12(14).1 == true;
    LongDatePieces(dt, "January", "14", "2026", "2:30:00", "PM");
    DocstringLayout();
  }

  lemma DocstringIso(dt: DateTime)
    requires dt == DateTime(2026, 1, 14, 14, 30, 0)
    ensures Iso(dt) == "2026-01-14T14:30:00"
  {
    IsoPieces(dt);
    Pad4Of2026();
    Pad2Examples();
  }

  /** `January 14, 2026 at 2:30:00 PM` converts to `2026-01-14T14:30:00`. */
  lemma DocstringExample()
    ensures ParseAppleScriptDate("January 14, 2026 at 2:30:00 PM") == "2026-01-14T14:30:00"
  {
    var dt := DateTime(2026, 1, 14, 14, 30, 0);
    LongDateRoundTrip(dt);
    DocstringText(dt);
    DocstringIso(dt);
  }

  lemma DocstringWeekdayLayout()
    ensures "Tuesday, " + "January 14, 2026 at 2:30:00 PM" == "Tuesday, January 14, 2026 at 2:30:00 PM"
  {
  }

  lemma DocstringWeekdayText(dt: DateTime)
    requires dt == DateTime(2026, 1, 14, 14, 30, 0)
    ensures WeekdayNames[1] + ", " + ToAppleScriptDate(dt) + TimeText(dt) == "Tuesday, January 14, 2026 at 2:30:00 PM"
  {
    DocstringText(dt);
    var a, t := ToAppleScriptDate(dt), TimeText(dt);
    assert WeekdayNames[1] == "Tuesday";
    assert WeekdayNames[1] + ", " + a + t == "Tuesday, " + (a + t);
    DocstringWeekdayLayout();
  }

  /**
   * `Tuesday, January 14, 2026 at 2:30:00 PM` converts to
   * `2026-01-14T14:30:00`, although 14 January 2026 is a Wednesday.
   */
  lemma DocstringWeekdayExample()
    ensures ParseAppleScriptDate("Tuesday, January 14, 2026 at 2:30:00 PM") == "2026-01-14T14:30:00"
  {
    var dt := DateTime(2026, 1, 14, 14, 30, 0);
    WeekdayDateRoundTrip(dt, 1);
    DocstringWeekdayText(dt);
    DocstringIso(dt);
  }

  // 30 February 2026, which does not exist

  lemma MissingDayWords(ws: seq<string>)
    requires ws == [MonthNames[1], Pad2(30) + ",", Pad4(2026), "at", "1:00:00", "PM"]
    ensures |ws| == 6 && AreWords(ws)
    ensures MonthOf(ws[0]) == Some(2) && DayWord(ws[1]) == Some(30) && YearField(ws[2]) == Some(2026)
  {
    MonthNamesAreWords();
    MonthOfName(2);
    DayWordOfText(30);
    NoSpaceOfDigits(Pad2(30));
    NoSpaceJoined(Pad2(30), ',', []);
    assert Pad2(30) + [','] + [] == ws[1];
    NoSpaceOfDigits(Pad4(2026));
    assert NoSpace("at") && NoSpace("1:00:00") && NoSpace("PM");
    forall i | 0 <= i < 6 ensures ws[i] != [] && NoSpace(ws[i]) {
      assert i == 0 || i == 1 || i == 2 || i == 3 || i == 4 || i == 5;
    }
  }

  lemma MissingDayLayout()
    ensures "February" + " " + "30" + ", " + "2026" + " at " + "1:00:00" + " " + "PM" == "February 30, 2026 at 1:00:00 PM"
  {
  }

  /** `February 30, 2026 at 1:00:00 PM` names a day February lacks: it comes back unchanged. */
  lemma MissingDayExample()
    ensures ParseAppleScriptDate("February 30, 2026 at 1:00:00 PM") == "February 30, 2026 at 1:00:00 PM"
  {
    var m, d, y := MonthNames[1], Pad2(30), Pad4(2026);
    var ws := [m, d + ",", y, "at", "1:00:00", "PM"];
    MissingDayWords(ws);
    assert DaysInMonth(2026, 2) == 28;
    LongDateRejectsMissingDay(ws);
    LongDateLayout(m, d, y, "1:00:00", "PM");
    Pad2Examples();
    Pad4Of2026();
    assert m == "February";
    MissingDayLayout();
  }

  // ---------------------------------------------------------------------
  // parse_date
  // ---------------------------------------------------------------------

  /** The message `parse_date` dies with. */
  function BadDateMessage(s: string): string {
    "Invalid date format: '" + s + "'. Use YYYY-MM-DD (e.g. 2026-02-14)."
  }

  /**
   * `parse_date`: `datetime.strptime(s, "%Y-%m-%d")` at midnight, or the
   * fatal error quoting the input. None of the three fields can hold a
   * `-`, so the input is exactly three fields separated by dashes.
   */
  function ParseDate(s: string): (r: Result<DateTime>)
    ensures r.Ok? ==> Valid(r.value) && r.value.hour == 0 && r.value.minute == 0 && r.value.second == 0
    ensures r.Err? ==> r.error == BadDateMessage(s)
  {
    var parts := Split(s, '-');
    if |parts| != 3 then Err(BadDateMessage(s))
    else
      var y, m, d := YearField(parts[0]), MonthField(parts[1]), DateDayField(parts[2]);
      if y.Some? && m.Some? && d.Some? && Valid(DateTime(y.value, m.value, d.value, 0, 0, 0)) then
        Ok(DateTime(y.value, m.value, d.value, 0, 0, 0))
      else
        Err(BadDateMessage(s))
  }

  /** The `YYYY-MM-DD` rendering of the date part, as `%Y-%m-%d` prints it. */
  function DateText(dt: DateTime): string
    requires Valid(dt)
  {
    Pad4(dt.year) + "-" + Pad2(dt.month) + "-" + Pad2(dt.day)
  }

  /** Three dash-free texts joined by dashes split back into the three texts. */
  lemma SplitThree(a: string, b: string, c: string, sep: char)
    requires sep !in a && sep !in b && sep !in c
    ensures Split(a + [sep] + b + [sep] + c, sep) == [a, b, c]
  {
    var parts := [a, b, c];
    assert parts[1..] == [b, c] && parts[1..][1..] == [c];
    assert Join(parts[1..], sep) == b + [sep] + c;
    assert Join(parts, sep) == a + [sep] + (b + [sep] + c);
    assert a + [sep] + b + [sep] + c == Join(parts, sep);
    SplitJoin(parts, sep);
  }

  /** Digits hold no dash. */
  lemma NoDashInDigits(s: string)
    requires AllDigits(s)
    ensures '-' !in s
  {
  }

  /** Three fields that read as the parts of a valid date parse to that date at midnight. */
  lemma ParseDateOfFields(y: string, m: string, d: string, dt: DateTime)
    requires '-' !in y && '-' !in m && '-' !in d
    requires Valid(dt) && dt.hour == 0 && dt.minute == 0 && dt.second == 0
    requires YearField(y) == Some(dt.year) && MonthField(m) == Some(dt.month) && DateDayField(d) == Some(dt.day)
    ensures ParseDate(y + "-" + m + "-" + d) == Ok(dt)
  {
    SplitThree(y, m, d, '-');
  }

  /** The date at midnight. */
  function Midnight(dt: DateTime): DateTime {
    DateTime(dt.year, dt.month, dt.day, 0, 0, 0)
  }

  /** Every date's `YYYY-MM-DD` rendering parses back to that date at midnight. */
  lemma ParseDateRoundTrip(dt: DateTime)
    requires Valid(dt)
    ensures ParseDate(DateText(dt)) == Ok(Midnight(dt))
  {
    NoDashInDigits(Pad4(dt.year));
    NoDashInDigits(Pad2(dt.month));
    NoDashInDigits(Pad2(dt.day));
    ParseDateOfFields(Pad4(dt.year), Pad2(dt.month), Pad2(dt.day), Midnight(dt));
  }

  /** Month and day need no leading zero: `2026-2-5` is accepted too. */
  lemma ParseDateUnpadded(dt: DateTime)
    requires Valid(dt)
    ensures ParseDate(Pad4(dt.year) + "-" + Unpadded(dt.month) + "-" + Unpadded(dt.day)) == Ok(Midnight(dt))
  {
    NoDashInDigits(Pad4(dt.year));
    NoDashInDigits(Unpadded(dt.month));
    NoDashInDigits(Unpadded(dt.day));
    ParseDateOfFields(Pad4(dt.year), Unpadded(dt.month), Unpadded(dt.day), Midnight(dt));
  }

  /** A blank may stand for the leading zero of a day below 10: `2026-02- 5` is accepted. */
  lemma ParseDateBlankPaddedDay(dt: DateTime)
    requires Valid(dt) && dt.day <= 9
    ensures ParseDate(Pad4(dt.year) + "-" + Pad2(dt.month) + "- " + [Digit(dt.day)]) == Ok(Midnight(dt))
  {
    var d := " " + [Digit(dt.day)];
    assert Pad4(dt.year) + "-" + Pad2(dt.month) + "- " + [Digit(dt.day)] == Pad4(dt.year) + "-" + Pad2(dt.month) + "-" + d;
    assert '-' !in d;
    NoDashInDigits(Pad4(dt.year));
    NoDashInDigits(Pad2(dt.month));
    ParseDateOfFields(Pad4(dt.year), Pad2(dt.month), d, Midnight(dt));
  }

  /** A day the month does not have is refused with the message, though each field has the right shape. */
  lemma ParseDateRejectsMissingDay(y: int, m: int, d: int)
    requires 1 <= y <= 9999 && 1 <= m <= 12 && DaysInMonth(y, m) < d <= 31
    ensures ParseDate(Pad4(y) + "-" + Pad2(m) + "-" + Pad2(d)) == Err(BadDateMessage(Pad4(y) + "-" + Pad2(m) + "-" + Pad2(d)))
  {
    NoDashInDigits(Pad4(y));
    NoDashInDigits(Pad2(m));
    NoDashInDigits(Pad2(d));
    SplitThree(Pad4(y), Pad2(m), Pad2(d), '-');
  }

  /** A successful parse has the layout `Y-M-D`: three fields, split at the two dashes. */
  lemma ParseDateLayout(s: string)
    requires ParseDate(s).Ok?
    ensures var p := Split(s, '-'); var dt := ParseDate(s).value;
      |p| == 3 && s == p[0] + "-" + p[1] + "-" + p[2]
      && YearField(p[0]) == Some(dt.year) && MonthField(p[1]) == Some(dt.month) && DateDayField(p[2]) == Some(dt.day)
  {
    var p := Split(s, '-');
    assert p[1..] == [p[1], p[2]] && p[1..][1..] == [p[2]];
    assert Join(p[1..], '-') == p[1] + "-" + p[2];
  }

  /** A successful parse is exactly the date `DateText` renders, so parsing it again agrees. */
  lemma ParseDateStable(s: string)
    requires ParseDate(s).Ok?
    ensures ParseDate(DateText(ParseDate(s).value)) == ParseDate(s)
  {
    ParseDateRoundTrip(ParseDate(s).value);
  }

  // ---------------------------------------------------------------------
  // Examples from the docstring and the test suite
  // ---------------------------------------------------------------------

  lemma ParseDateExample()
    ensures ParseDate("2026-02-14") == Ok(DateTime(2026, 2, 14, 0, 0, 0))
  {
    var dt := DateTime(2026, 2, 14, 0, 0, 0);
    assert Pad4(2026) == "2026" by { assert Pad2(20) == "20" && Pad2(26) == "26"; }
    assert DateText(dt) == "2026-02-14";
    ParseDateRoundTrip(dt);
  }
}
