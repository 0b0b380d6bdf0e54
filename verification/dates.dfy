/** The date pieces of the engine: the `MM/DD/YY` short form
    (`formatToShortDate`), the input mask of the date field, and the date
    discovery of `processSummary` with its fallback to today. */
module Dates {
  import opened Optional
  import opened Text

  datatype CalendarDate = CalendarDate(year: int, month: int, day: int)

  /** The components a JavaScript Date object reports: `getMonth() + 1` in
      1..12 and `getDate()` in 1..31 (any year) */
  type JsDate = d: CalendarDate | 1 <= d.month <= 12 && 1 <= d.day <= 31
    witness CalendarDate(1970, 1, 1)

  // ---------------------------------------------------------------------
  // The short form
  // ---------------------------------------------------------------------

  /** `getFullYear().toString().substring(2)` */
  function YearSuffix(year: int): string {
    var s := IntToString(year);
    if |s| <= 2 then "" else s[2..]
  }

  /** `formatToShortDate`: zero-padded month, `/`, zero-padded day, `/`, the
      year's decimal rendering without its first two characters */
  function FormatShortDate(d: JsDate): (r: string)
    ensures |r| >= 6 && r[2] == '/' && r[5] == '/'
    ensures AllDigits(r[..2]) && DigitsValue(r[..2]) == d.month
    ensures AllDigits(r[3..5]) && DigitsValue(r[3..5]) == d.day
    ensures 1000 <= d.year <= 9999 ==>
              |r| == 8 && AllDigits(r[6..]) && DigitsValue(r[6..]) == d.year % 100
  {
    var r := PadTwo(d.month) + "/" + PadTwo(d.day) + "/" + YearSuffix(d.year);
    assert r[..2] == PadTwo(d.month);
    assert r[3..5] == PadTwo(d.day);
    assert r[6..] == YearSuffix(d.year);
    FourDigitYearSuffix(d.year);
    r
  }

  /** A four-digit year leaves its last two digits */
  lemma FourDigitYearSuffix(year: int)
    ensures 1000 <= year <= 9999 ==>
              |YearSuffix(year)| == 2 && AllDigits(YearSuffix(year)) && DigitsValue(YearSuffix(year)) == year % 100
  {
    if 1000 <= year <= 9999 {
      var s := NatToString(year);
      NatToStringLength(year);
      NatToStringLastTwo(year);
      assert YearSuffix(year) == s[|s| - 2..];
    }
  }

  /** Reads an `MM/DD/YY` string back into (month, day, two-digit year) */
  function ParseShortDate(s: string): Option<(nat, nat, nat)> {
    if |s| == 8 && s[2] == '/' && s[5] == '/'
       && AllDigits(s[..2]) && AllDigits(s[3..5]) && AllDigits(s[6..])
    then Some((DigitsValue(s[..2]), DigitsValue(s[3..5]), DigitsValue(s[6..])))
    else None
  }

  /** For a four-digit year the short form is exactly `MM/DD/YY` and reads back
      as the month, the day and the year's last two digits */
  lemma ShortDateRoundTrip(d: JsDate)
    requires 1000 <= d.year <= 9999
    ensures |FormatShortDate(d)| == 8
    ensures ParseShortDate(FormatShortDate(d)) == Some((d.month, d.day, d.year % 100))
  {
  }

  /** March 1st, 2024 is written 03/01/24 */
  lemma ShortDateExample()
    ensures FormatShortDate(CalendarDate(2024, 3, 1)) == "03/01/24"
  {
    var d := CalendarDate(2024, 3, 1);
    assert NatToString(3) == "3";
    assert NatToString(1) == "1";
    assert NatToString(2024) == "2024" by {
      assert NatToString(2) == "2";
      assert NatToString(20) == "20";
      assert NatToString(202) == "202";
    }
  }

  // ---------------------------------------------------------------------
  // The input mask of the date field
  // ---------------------------------------------------------------------

  /** The first six characters of a string (`slice(0, 6)`) */
  function TakeSix(s: string): (r: string)
    ensures |r| <= 6 && |r| <= |s| && r == s[..|r|]
    ensures |s| <= 6 ==> r == s
  {
    if |s| > 6 then s[..6] else s
  }

  /** The date field's `input` handler: keep at most six digits and put `/`
      after the second and the fourth (a slash follows them even when no digit
      comes after it yet) */
  function DateMask(value: string): (r: string)
    ensures |r| <= 8
    ensures KeepDigits(r) == TakeSix(KeepDigits(value))
    ensures var n := |TakeSix(KeepDigits(value))|;
            |r| == n + (if n >= 2 then 1 else 0) + (if n >= 4 then 1 else 0)
    ensures forall i :: 0 <= i < |r| ==> (r[i] == '/' <==> i == 2 || i == 5)
    ensures forall i :: 0 <= i < |r| && i != 2 && i != 5 ==> IsDigit(r[i])
    ensures |TakeSix(KeepDigits(value))| >= 2 ==> |r| >= 3 && r[..2] == KeepDigits(value)[..2]
  {
    var v := TakeSix(KeepDigits(value));
    SlashKeepsDigits(v);
    Slash(v)
  }

  /** The re-assembly step of the mask on the kept digits */
  function Slash(v: string): (r: string)
    requires AllDigits(v) && |v| <= 6
    ensures |r| <= 8
    ensures |r| == |v| + (if |v| >= 2 then 1 else 0) + (if |v| >= 4 then 1 else 0)
    ensures forall i :: 0 <= i < |r| ==> (r[i] == '/' <==> i == 2 || i == 5)
    ensures forall i :: 0 <= i < |r| && i != 2 && i != 5 ==> IsDigit(r[i])
    ensures |v| >= 2 ==> |r| >= 3 && r[..2] == v[..2]
  {
    if |v| >= 4 then v[..2] + "/" + v[2..4] + "/" + v[4..]
    else if |v| >= 2 then v[..2] + "/" + v[2..]
    else v
  }

  lemma SlashKeepsDigits(v: string)
    requires AllDigits(v) && |v| <= 6
    ensures KeepDigits(Slash(v)) == v
  {
    var slash := KeepDigits("/");
    assert slash == "";
    if |v| >= 4 {
      var a, b, c := v[..2], v[2..4], v[4..];
      assert AllDigits(a) && AllDigits(b) && AllDigits(c);
      KeepDigitsAppend(a, "/");
      KeepDigitsAppend(a + "/", b);
      KeepDigitsAppend(a + "/" + b, "/");
      KeepDigitsAppend(a + "/" + b + "/", c);
      assert v == a + b + c;
    } else if |v| >= 2 {
      var a, b := v[..2], v[2..];
      assert AllDigits(a) && AllDigits(b);
      KeepDigitsAppend(a, "/");
      KeepDigitsAppend(a + "/", b);
      assert v == a + b;
    }
  }

  /** Re-applying the mask to its own output changes nothing */
  lemma DateMaskIdempotent(value: string)
    ensures DateMask(DateMask(value)) == DateMask(value)
  {
    var r := DateMask(value);
    var v := TakeSix(KeepDigits(value));
    assert KeepDigits(r) == v;
    assert TakeSix(KeepDigits(r)) == v;
  }

  // ---------------------------------------------------------------------
  // Finding a date in the text
  // ---------------------------------------------------------------------

  /** `n` digits start at `q` */
  predicate DigitsAt(s: string, q: int, n: nat) {
    0 <= q && q + n <= |s| && forall i :: q <= i < q + n ==> IsDigit(s[i])
  }

  /** `[\/-]` at `q` */
  predicate SepAt(s: string, q: int) {
    0 <= q < |s| && (s[q] == '/' || s[q] == '-')
  }

  /** `t` is `n1` digits, a separator, `n2` digits, a separator, then 2 to 4 digits */
  predicate ShapedWith(t: string, n1: nat, n2: nat) {
    var n3 := |t| - n1 - n2 - 2;
    && 2 <= n3 <= 4
    && DigitsAt(t, 0, n1) && SepAt(t, n1)
    && DigitsAt(t, n1 + 1, n2) && SepAt(t, n1 + 1 + n2)
    && DigitsAt(t, n1 + n2 + 2, n3)
  }

  /** `t` matches `\d{1,2}[\/-]\d{1,2}[\/-]\d{2,4}` as a whole */
  predicate DateShaped(t: string) {
    ShapedWith(t, 1, 1) || ShapedWith(t, 1, 2) || ShapedWith(t, 2, 1) || ShapedWith(t, 2, 2)
  }

  /** `\d{2,4}` at `q`, greedy */
  function YearDigits(s: string, q: int): Option<nat> {
    if DigitsAt(s, q, 4) then Some(4)
    else if DigitsAt(s, q, 3) then Some(3)
    else if DigitsAt(s, q, 2) then Some(2)
    else None
  }

  /** `\d{1,2}[\/-]\d{2,4}` at `q`, trying two digits before one */
  function DayAndYear(s: string, q: int): Option<nat> {
    if DigitsAt(s, q, 2) && SepAt(s, q + 2) && YearDigits(s, q + 3).Some? then
      Some(3 + YearDigits(s, q + 3).value)
    else if DigitsAt(s, q, 1) && SepAt(s, q + 1) && YearDigits(s, q + 2).Some? then
      Some(2 + YearDigits(s, q + 2).value)
    else None
  }

  /** The length of the match of the date pattern starting exactly at `p`, if any,
      with the backtracking order of the regular-expression engine */
  function DateMatchAt(s: string, p: nat): Option<nat> {
    if DigitsAt(s, p, 2) && SepAt(s, p + 2) && DayAndYear(s, p + 3).Some? then
      Some(3 + DayAndYear(s, p + 3).value)
    else if DigitsAt(s, p, 1) && SepAt(s, p + 1) && DayAndYear(s, p + 2).Some? then
      Some(2 + DayAndYear(s, p + 2).value)
    else None
  }

  lemma DateMatchAtSound(s: string, p: nat)
    requires DateMatchAt(s, p).Some?
    ensures p + DateMatchAt(s, p).value <= |s|
    ensures ShapedAt(s, p, DateMatchAt(s, p).value)
  {
    var n := DateMatchAt(s, p).value;
    assert p + n <= |s|;
    var t := s[p..p + n];
    assert forall i :: 0 <= i < n ==> t[i] == s[p + i];
    assert ShapedAt(s, p, n);
  }

  lemma DateMatchAtComplete(s: string, p: nat, n: nat)
    requires ShapedAt(s, p, n)
    ensures DateMatchAt(s, p).Some?
  {
    var t := s[p..p + n];
    if ShapedWith(t, 1, 1) {
      ShapeInText(s, p, n, 1, 1);
    } else if ShapedWith(t, 1, 2) {
      ShapeInText(s, p, n, 1, 2);
    } else if ShapedWith(t, 2, 1) {
      ShapeInText(s, p, n, 2, 1);
    } else {
      ShapeInText(s, p, n, 2, 2);
    }
  }

  lemma ShapeInText(s: string, p: nat, n: nat, n1: nat, n2: nat)
    requires p + n <= |s| && ShapedWith(s[p..p + n], n1, n2)
    ensures DigitsAt(s, p, n1) && SepAt(s, p + n1)
    ensures DigitsAt(s, p + n1 + 1, n2) && SepAt(s, p + n1 + 1 + n2)
    ensures DigitsAt(s, p + n1 + n2 + 2, 2) && DigitsAt(s, p + n1 + n2 + 2, n - n1 - n2 - 2)
    ensures 2 <= n - n1 - n2 - 2 <= 4
  {
    var t := s[p..p + n];
    assert forall i :: 0 <= i < n ==> t[i] == s[p + i];
  }

  /** Of the date-shaped substrings starting at `p`, the engine takes the longest */
  lemma DateMatchAtLongest(s: string, p: nat, n: nat)
    requires DateMatchAt(s, p).Some? && ShapedAt(s, p, n)
    ensures n <= DateMatchAt(s, p).value
  {
    var t := s[p..p + n];
    if ShapedWith(t, 1, 1) {
      ShapeInText(s, p, n, 1, 1);
    } else if ShapedWith(t, 1, 2) {
      ShapeInText(s, p, n, 1, 2);
    } else if ShapedWith(t, 2, 1) {
      ShapeInText(s, p, n, 2, 1);
    } else {
      ShapeInText(s, p, n, 2, 2);
    }
  }

  /** A date-shaped substring of length `n` starts at `q` */
  predicate ShapedAt(s: string, q: int, n: int) {
    0 <= q && 0 <= n && q + n <= |s| && DateShaped(s[q..q + n])
  }

  /** The leftmost match of `/(\d{1,2}[\/-]\d{1,2}[\/-]\d{2,4})/` at or after `p`,
      no match starting before `p` */
  function FindDateFrom(s: string, p: nat): (r: Option<string>)
    requires forall q, n :: 0 <= q < p ==> !ShapedAt(s, q, n)
    ensures r.Some? ==> exists q :: DateFound(s, r.value, q)
    ensures r.None? ==> forall q, n :: !ShapedAt(s, q, n)
    decreases |s| - p
  {
    if p >= |s| then
      assert forall q, n :: p <= q ==> !ShapedAt(s, q, n);
      None
    else
      match DateMatchAt(s, p)
      case Some(n) =>
        DateMatchAtSound(s, p);
        var m := s[p..p + n];
        forall n' | ShapedAt(s, p, n') ensures n' <= |m| {
          DateMatchAtLongest(s, p, n');
        }
        assert DateFound(s, m, p);
        Some(m)
      case None =>
        forall n ensures !ShapedAt(s, p, n) {
          if ShapedAt(s, p, n) {
            DateMatchAtComplete(s, p, n);
          }
        }
        FindDateFrom(s, p + 1)
  }

  /** `rawText.match(/(\d{1,2}[\/-]\d{1,2}[\/-]\d{2,4})/)`: the leftmost
      date-shaped substring, or None exactly when there is none */
  function FindDate(s: string): (r: Option<string>)
    ensures r.Some? ==> exists q :: DateFound(s, r.value, q)
    ensures r.None? <==> forall q, n :: !ShapedAt(s, q, n)
  {
    var r := FindDateFrom(s, 0);
    assert r.Some? ==> exists q, n :: ShapedAt(s, q, n) by {
      if r.Some? {
        var q :| DateFound(s, r.value, q);
        assert ShapedAt(s, q, |r.value|);
      }
    }
    r
  }

  /** `m` is the date-shaped substring at `q`, no date-shaped substring starts
      before `q`, and none starting at `q` is longer: the regular-expression match */
  ghost predicate DateFound(s: string, m: string, q: int) {
    && ShapedAt(s, q, |m|) && s[q..q + |m|] == m
    && (forall q', n :: 0 <= q' < q ==> !ShapedAt(s, q', n))
    && (forall n :: ShapedAt(s, q, n) ==> n <= |m|)
  }

  /** There is only one leftmost-longest match */
  lemma DateFoundUnique(s: string, m1: string, q1: int, m2: string, q2: int)
    requires DateFound(s, m1, q1) && DateFound(s, m2, q2)
    ensures m1 == m2 && q1 == q2
  {
    assert !(q1 < q2) by { assert ShapedAt(s, q1, |m1|); }
    assert !(q2 < q1) by { assert ShapedAt(s, q2, |m2|); }
    assert |m1| <= |m2| by { assert ShapedAt(s, q1, |m1|); }
    assert |m2| <= |m1| by { assert ShapedAt(s, q2, |m2|); }
  }

  // ---------------------------------------------------------------------
  // The date of a receipt
  // ---------------------------------------------------------------------

  /** The date outcome of `processSummary`: the text put in the date field and
      whether the "defaulted" and "today" badges are shown */
  datatype DateField = DateField(text: string, defaulted: bool, isToday: bool)

  /** The date step of `processSummary`. `today` stands for `new Date()` and
      `parse` for the host's `new Date(string)`, None when it yields an invalid date. */
  function ExtractDate(rawText: string, today: JsDate, parse: string -> Option<JsDate>): (r: DateField)
    ensures (forall q, n :: !ShapedAt(rawText, q, n)) ==>
              r == DateField(FormatShortDate(today), true, false)
    ensures forall q, m :: DateFound(rawText, m, q) && parse(m).None? ==>
              r == DateField(FormatShortDate(today), true, false)
    ensures forall q, m :: DateFound(rawText, m, q) && parse(m).Some? ==>
              && r.text == FormatShortDate(parse(m).value)
              && !r.defaulted
              && (r.isToday <==> r.text == FormatShortDate(today))
    ensures r.defaulted ==> r.text == FormatShortDate(today) && !r.isToday
    ensures r.isToday ==> r.text == FormatShortDate(today) && !r.defaulted
  {
    var todayText := FormatShortDate(today);
    var found := FindDate(rawText);
    if found.None? then
      DateField(todayText, true, false)
    else
      var m := found.value;
      assert forall q, m' :: DateFound(rawText, m', q) ==> m' == m by {
        var q0 :| DateFound(rawText, m, q0);
        forall q, m' | DateFound(rawText, m', q) ensures m' == m {
          DateFoundUnique(rawText, m, q0, m', q);
        }
      }
      match parse(m)
      case None => DateField(todayText, true, false)
      case Some(d) =>
        var text := FormatShortDate(d);
        DateField(text, false, text == todayText)
  }

  /** With a four-digit year for today and for whatever the parser returns, the
      date field always holds a well-formed `MM/DD/YY` */
  lemma ExtractDateIsShortDate(rawText: string, today: JsDate, parse: string -> Option<JsDate>)
    requires 1000 <= today.year <= 9999
    requires forall m :: parse(m).Some? ==> 1000 <= parse(m).value.year <= 9999
    ensures ParseShortDate(ExtractDate(rawText, today, parse).text).Some?
  {
    ShortDateRoundTrip(today);
    var found := FindDate(rawText);
    if found.Some? && parse(found.value).Some? {
      var q :| DateFound(rawText, found.value, q);
      ShortDateRoundTrip(parse(found.value).value);
    }
  }
}
