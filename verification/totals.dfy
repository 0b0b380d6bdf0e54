/** The consensus total resolver of `processSummary`: every receipt line that
    ends in a price and is not a savings line becomes a scored candidate; a
    price seen on two or more such lines wins, otherwise the best-scored line.
    Prices are integer cents. */
module Totals {
  import opened Optional
  import opened Text

  const SavingsWords: seq<string> := ["SAVINGS", "SAVED", "POINTS", "YOU", "COUPON", "DISCOUNT"]
  const TotalWords: seq<string> := ["BALANCE", "TOTAL", "DUE"]
  const TenderWords: seq<string> := ["MASTERCARD", "VISA", "DEBIT", "TENDER", "BC AMT"]

  // ---------------------------------------------------------------------
  // Lines
  // ---------------------------------------------------------------------

  /** `map(l => l.trim())` */
  function TrimAll(pieces: seq<string>): (r: seq<string>)
    ensures |r| == |pieces|
    ensures forall k :: 0 <= k < |r| ==> r[k] == Trim(pieces[k])
  {
    if |pieces| == 0 then [] else [Trim(pieces[0])] + TrimAll(pieces[1..])
  }

  /** `r` lists, in order and each once, the pieces at the increasing positions
      `idx`, and those are exactly the positions of pieces longer than one character */
  predicate LongerAt(pieces: seq<string>, r: seq<string>, idx: seq<nat>) {
    LongPicks(pieces, r, idx) && Increasing(idx) && CoversLong(pieces, idx)
  }

  /** `r[m]` is the piece at position `idx[m]`, and it is longer than one character */
  predicate LongPicks(pieces: seq<string>, r: seq<string>, idx: seq<nat>) {
    |idx| == |r| && forall m :: 0 <= m < |idx| ==> idx[m] < |pieces| && r[m] == pieces[idx[m]] && |r[m]| > 1
  }

  predicate Increasing(idx: seq<nat>) {
    forall m, n :: 0 <= m < n < |idx| ==> idx[m] < idx[n]
  }

  /** Every piece longer than one character is picked */
  predicate CoversLong(pieces: seq<string>, idx: seq<nat>) {
    forall k :: 0 <= k < |pieces| && |pieces[k]| > 1 ==> k in idx
  }

  /** `filter(l => l.length > 1)` */
  function KeepLonger(pieces: seq<string>): (r: seq<string>)
    ensures exists idx :: LongerAt(pieces, r, idx)
  {
    if |pieces| == 0 then
      assert LongerAt(pieces, [], []);
      []
    else
      var rest := KeepLonger(pieces[1..]);
      if |pieces[0]| > 1 then
        KeepHead(pieces, rest);
        [pieces[0]] + rest
      else
        DropHead(pieces, rest);
        rest
  }

  /** Positions in the tail, counted in the whole sequence */
  function Shift(idx: seq<nat>): (r: seq<nat>)
    ensures |r| == |idx| && forall m :: 0 <= m < |r| ==> r[m] == idx[m] + 1
  {
    seq(|idx|, m requires 0 <= m < |idx| => idx[m] + 1)
  }

  /** The filtered tail, shifted, covers every long piece after the head */
  lemma ShiftCovers(pieces: seq<string>, rest: seq<string>, idx: seq<nat>)
    requires |pieces| > 0 && LongerAt(pieces[1..], rest, idx)
    ensures forall k :: 1 <= k < |pieces| && |pieces[k]| > 1 ==> k in Shift(idx)
  {
    var shifted := Shift(idx);
    forall k | 1 <= k < |pieces| && |pieces[k]| > 1 ensures k in shifted {
      assert pieces[1..][k - 1] == pieces[k];
      var m :| 0 <= m < |idx| && idx[m] == k - 1;
      assert shifted[m] == k;
    }
  }

  /** A long head is kept in front of the filtered tail */
  lemma KeepHead(pieces: seq<string>, rest: seq<string>)
    requires |pieces| > 0 && |pieces[0]| > 1
    requires exists idx :: LongerAt(pieces[1..], rest, idx)
    ensures exists idx :: LongerAt(pieces, [pieces[0]] + rest, idx)
  {
    var idx :| LongerAt(pieces[1..], rest, idx);
    KeepHeadAt(pieces, rest, idx);
  }

  lemma KeepHeadAt(pieces: seq<string>, rest: seq<string>, idx: seq<nat>)
    requires |pieces| > 0 && |pieces[0]| > 1
    requires LongerAt(pieces[1..], rest, idx)
    ensures LongerAt(pieces, [pieces[0]] + rest, [0] + Shift(idx))
  {
    KeepHeadPicks(pieces, rest, idx);
    KeepHeadIncreasing(idx);
    KeepHeadCovers(pieces, rest, idx);
  }

  lemma KeepHeadPicks(pieces: seq<string>, rest: seq<string>, idx: seq<nat>)
    requires |pieces| > 0 && |pieces[0]| > 1
    requires LongPicks(pieces[1..], rest, idx)
    ensures LongPicks(pieces, [pieces[0]] + rest, [0] + Shift(idx))
  {
    var full := [0] + Shift(idx);
    var r := [pieces[0]] + rest;
    forall m | 0 <= m < |full| ensures full[m] < |pieces| && r[m] == pieces[full[m]] && |r[m]| > 1 {
      if m > 0 {
        assert full[m] == idx[m - 1] + 1 && r[m] == rest[m - 1];
        assert pieces[1..][idx[m - 1]] == pieces[idx[m - 1] + 1];
      }
    }
  }

  lemma KeepHeadIncreasing(idx: seq<nat>)
    requires Increasing(idx)
    ensures Increasing([0] + Shift(idx))
  {
    var full := [0] + Shift(idx);
    forall m, n | 0 <= m < n < |full| ensures full[m] < full[n] {
      if m > 0 {
        assert full[m] == idx[m - 1] + 1 && full[n] == idx[n - 1] + 1;
      }
    }
  }

  lemma KeepHeadCovers(pieces: seq<string>, rest: seq<string>, idx: seq<nat>)
    requires |pieces| > 0 && LongerAt(pieces[1..], rest, idx)
    ensures CoversLong(pieces, [0] + Shift(idx))
  {
    ShiftCovers(pieces, rest, idx);
    var shifted := Shift(idx);
    var full := [0] + shifted;
    forall k | 0 <= k < |pieces| && |pieces[k]| > 1 ensures k in full {
      if k > 0 {
        var m :| 0 <= m < |shifted| && shifted[m] == k;
        assert full[m + 1] == k;
      }
    }
  }

  /** A short head is dropped */
  lemma DropHead(pieces: seq<string>, rest: seq<string>)
    requires |pieces| > 0 && |pieces[0]| <= 1
    requires exists idx :: LongerAt(pieces[1..], rest, idx)
    ensures exists idx :: LongerAt(pieces, rest, idx)
  {
    var idx :| LongerAt(pieces[1..], rest, idx);
    var shifted := Shift(idx);
    forall m | 0 <= m < |shifted| ensures shifted[m] < |pieces| && rest[m] == pieces[shifted[m]] {
      assert pieces[1..][idx[m]] == pieces[idx[m] + 1];
    }
    assert LongPicks(pieces, rest, shifted);
    assert Increasing(shifted);
    ShiftCovers(pieces, rest, idx);
    assert CoversLong(pieces, shifted);
    assert LongerAt(pieces, rest, shifted);
  }

  /** A receipt line: trimmed, and longer than one character */
  predicate CleanLine(t: string) {
    |t| > 1 && !IsSpace(t[0]) && !IsSpace(t[|t| - 1])
  }

  /** `rawText.split('\n').map(l => l.trim()).filter(l => l.length > 1)`: the
      lines are the trimmed newline-separated pieces longer than one character,
      in their order in the text and each as often as it occurs */
  function CleanLines(rawText: string): (lines: seq<string>)
    ensures forall m :: 0 <= m < |lines| ==> CleanLine(lines[m])
    ensures exists idx :: LongerAt(TrimAll(Split(rawText, '\n')), lines, idx)
  {
    var pieces := Split(rawText, '\n');
    var trimmed := TrimAll(pieces);
    var lines := KeepLonger(trimmed);
    assert forall m :: 0 <= m < |lines| ==> CleanLine(lines[m]) by {
      var idx :| LongerAt(trimmed, lines, idx);
      forall m | 0 <= m < |lines| ensures CleanLine(lines[m]) {
        var k := idx[m];
        assert lines[m] == trimmed[k];
        var t := Trim(pieces[k]);
        assert trimmed[k] == t;
        assert |t| > 1;
      }
    }
    lines
  }

  // ---------------------------------------------------------------------
  // The trailing price
  // ---------------------------------------------------------------------

  /** `(\d+[\.,]\d{2})[^\d]*$` matches starting at `p` with its separator at `q`:
      digits from `p` up to `q`, then `.` or `,`, two digits, and no digit after them */
  predicate PriceMatchAt(s: string, p: int, q: int) {
    && 0 <= p < q && q + 3 <= |s|
    && (forall i :: p <= i < q ==> IsDigit(s[i]))
    && (s[q] == '.' || s[q] == ',')
    && IsDigit(s[q + 1]) && IsDigit(s[q + 2])
    && (forall i :: q + 3 <= i < |s| ==> !IsDigit(s[i]))
  }

  /** The captured amount in cents: `parseFloat` of the group with the comma read as a point */
  function PriceValue(s: string, p: int, q: int): nat
    requires PriceMatchAt(s, p, q)
  {
    assert AllDigits(s[p..q]) && AllDigits(s[q + 1..q + 3]);
    DigitsValue(s[p..q]) * 100 + DigitsValue(s[q + 1..q + 3])
  }

  /** The index of the last digit of `s` */
  function LastDigit(s: string): (r: Option<nat>)
    ensures r.Some? ==> r.value < |s| && IsDigit(s[r.value])
                        && forall i :: r.value < i < |s| ==> !IsDigit(s[i])
    ensures r.None? ==> forall i :: 0 <= i < |s| ==> !IsDigit(s[i])
  {
    if |s| == 0 then None
    else if IsDigit(s[|s| - 1]) then Some(|s| - 1)
    else LastDigit(s[..|s| - 1])
  }

  /** The start of the run of digits that ends at `j` */
  function RunStart(s: string, j: nat): (p: nat)
    requires j < |s| && IsDigit(s[j])
    ensures p <= j && (forall i :: p <= i <= j ==> IsDigit(s[i]))
    ensures p == 0 || !IsDigit(s[p - 1])
  {
    if j > 0 && IsDigit(s[j - 1]) then RunStart(s, j - 1) else j
  }

  /** `line.match(/(\d+[\.,]\d{2})[^\d]*$/)`, read as cents: the two fraction
      digits are the last digits of the line, preceded by `.` or `,` and a digit,
      and the whole part is the run of digits ending before the separator.
      TrailingPriceMatches relates it to the expression it implements. */
  function TrailingPrice(line: string): (r: Option<nat>)
    ensures r.Some? ==> exists p, q :: PriceMatchAt(line, p, q) && r.value == PriceValue(line, p, q)
  {
    match LastDigit(line)
    case None => None
    case Some(j) =>
      if j >= 3 && IsDigit(line[j - 1]) && (line[j - 2] == '.' || line[j - 2] == ',') && IsDigit(line[j - 3]) then
        var p := RunStart(line, j - 3);
        assert PriceMatchAt(line, p, j - 2);
        Some(PriceValue(line, p, j - 2))
      else
        None
  }

  /** A price is extracted exactly when the expression matches, and its value
      is that of the leftmost match */
  lemma TrailingPriceMatches(line: string)
    ensures TrailingPrice(line).None? <==> forall p, q :: !PriceMatchAt(line, p, q)
    ensures TrailingPrice(line).Some? ==>
              exists p, q :: && PriceMatchAt(line, p, q)
                             && (forall p', q' :: p' < p ==> !PriceMatchAt(line, p', q'))
                             && TrailingPrice(line).value == PriceValue(line, p, q)
  {
    match LastDigit(line)
    case None =>
      forall p, q | PriceMatchAt(line, p, q) ensures false {
        PriceMatchEndsAtLastDigit(line, p, q);
      }
    case Some(j) =>
      if j >= 3 && IsDigit(line[j - 1]) && (line[j - 2] == '.' || line[j - 2] == ',') && IsDigit(line[j - 3]) {
        var p := RunStart(line, j - 3);
        var q := j - 2;
        assert PriceMatchAt(line, p, q);
        forall p', q' | p' < p && PriceMatchAt(line, p', q') ensures false {
          PriceMatchEndsAtLastDigit(line, p', q');
        }
      } else {
        forall p, q | PriceMatchAt(line, p, q) ensures false {
          PriceMatchEndsAtLastDigit(line, p, q);
        }
      }
  }

  /** A match's second fraction digit is the last digit of the line */
  lemma PriceMatchEndsAtLastDigit(s: string, p: int, q: int)
    requires PriceMatchAt(s, p, q)
    ensures LastDigit(s) == Some(q + 2)
  {
    var r := LastDigit(s);
    assert r.Some? by { assert IsDigit(s[q + 2]); }
  }

  /** `toFixed(2)`: whole part, a point, two fraction digits */
  function ToFixed2(cents: nat): (r: string)
    ensures |r| >= 4 && r[|r| - 3] == '.' && AllDigits(r[|r| - 2..]) && AllDigits(r[..|r| - 3])
    ensures r[0] == '0' ==> r[1] == '.'
  {
    var whole := NatToString(cents / 100);
    NatToStringLeadingDigit(cents / 100);
    var r := whole + "." + PadTwo(cents % 100);
    assert r[|r| - 2..] == PadTwo(cents % 100);
    assert r[..|r| - 3] == whole;
    r
  }

  /** A run of digits bounded on the left is where RunStart stops */
  lemma {:induction false} RunStartOfBoundedRun(s: string, p: nat, j: nat)
    requires p <= j < |s| && forall i :: p <= i <= j ==> IsDigit(s[i])
    requires p == 0 || !IsDigit(s[p - 1])
    ensures RunStart(s, j) == p
    decreases j
  {
    if j > p {
      RunStartOfBoundedRun(s, p, j - 1);
    }
  }

  /** A match whose digits cannot be extended to the left is the one extracted */
  lemma TrailingPriceOfMatch(s: string, p: nat, q: nat)
    requires PriceMatchAt(s, p, q) && (p == 0 || !IsDigit(s[p - 1]))
    ensures TrailingPrice(s) == Some(PriceValue(s, p, q))
  {
    PriceMatchEndsAtLastDigit(s, p, q);
    RunStartOfBoundedRun(s, p, q - 1);
  }

  /** A whole part, a point and two digits match the price expression from position 0 */
  lemma PartsMatch(whole: string, frac: string)
    requires |whole| > 0 && AllDigits(whole) && |frac| == 2 && AllDigits(frac)
    ensures PriceMatchAt(whole + "." + frac, 0, |whole|)
    ensures PriceValue(whole + "." + frac, 0, |whole|) == DigitsValue(whole) * 100 + DigitsValue(frac)
  {
    var r := whole + "." + frac;
    var q := |whole|;
    assert forall i :: 0 <= i < q ==> r[i] == whole[i];
    assert r[q] == '.' && r[q + 1] == frac[0] && r[q + 2] == frac[1] && |r| == q + 3;
    assert r[0..q] == whole && r[q + 1..q + 3] == frac;
  }

  /** A whole part, a point and two digits form a price the extraction reads back */
  lemma TrailingPriceOfParts(whole: string, frac: string)
    requires |whole| > 0 && AllDigits(whole) && |frac| == 2 && AllDigits(frac)
    ensures TrailingPrice(whole + "." + frac).Some?
    ensures TrailingPrice(whole + "." + frac).value == DigitsValue(whole) * 100 + DigitsValue(frac)
  {
    PartsMatch(whole, frac);
    TrailingPriceOfMatch(whole + "." + frac, 0, |whole|);
  }

  /** Extracting the trailing price of a rendered total gives the total back */
  lemma ToFixed2RoundTrip(cents: nat)
    ensures TrailingPrice(ToFixed2(cents)) == Some(cents)
  {
    NatToStringRoundTrip(cents / 100);
    TrailingPriceOfParts(NatToString(cents / 100), PadTwo(cents % 100));
  }

  // ---------------------------------------------------------------------
  // Candidates
  // ---------------------------------------------------------------------

  /** A line that may hold the total: its price in cents, its score and its position */
  datatype Candidate = Candidate(value: nat, score: nat, index: nat)

  /** A line naming savings, points, coupons or discounts */
  predicate IsSavings(line: string) {
    ContainsAny(Upper(line), SavingsWords)
  }

  /** The savings test reads the line upper-cased, so it ignores case */
  lemma SavingsIgnoresCase(line: string)
    ensures IsSavings(Lower(line)) == IsSavings(line)
    ensures IsSavings(Upper(line)) == IsSavings(line)
  {
    assert Upper(Lower(line)) == Upper(line);
    assert Upper(Upper(line)) == Upper(line);
  }

  /** The line lies in the last 30% of the cleaned lines: `index > 0.7 * count`
      read as exact arithmetic (see LateAsWritten for the floating-point reading) */
  predicate IsLate(index: nat, count: nat) {
    10 * index > 7 * count
  }

  /** +20 for a total keyword, +30 for a tender keyword, +5 for a late line;
      the three parts can be read back from the sum */
  function LineScore(line: string, index: nat, count: nat): (r: nat)
    ensures r <= 55 && (r % 30 == 0 || r % 30 == 5 || r % 30 == 20 || r % 30 == 25)
    ensures r >= 30 <==> ContainsAny(Upper(line), TenderWords)
    ensures r % 30 >= 20 <==> ContainsAny(Upper(line), TotalWords)
    ensures r % 10 == 5 <==> IsLate(index, count)
  {
    var upper := Upper(line);
    (if ContainsAny(upper, TotalWords) then 20 else 0)
    + (if ContainsAny(upper, TenderWords) then 30 else 0)
    + (if IsLate(index, count) then 5 else 0)
  }

  /** Line `k` yields a candidate: it has a trailing price and is not a savings line */
  predicate Priced(lines: seq<string>, k: int) {
    0 <= k < |lines| && TrailingPrice(lines[k]).Some? && !IsSavings(lines[k])
  }

  /** The candidate line `k` yields */
  predicate CandidateOf(lines: seq<string>, c: Candidate) {
    && Priced(lines, c.index)
    && c.value == TrailingPrice(lines[c.index]).value
    && c.score == LineScore(lines[c.index], c.index, |lines|)
  }

  /** What the `forEach` body does with line `k`: a candidate, or nothing */
  function LineCandidate(lines: seq<string>, k: nat): (r: Option<Candidate>)
    requires k < |lines|
    ensures r.Some? <==> Priced(lines, k)
    ensures r.Some? ==> r.value.index == k && CandidateOf(lines, r.value)
  {
    if Priced(lines, k) then
      Some(Candidate(TrailingPrice(lines[k]).value, LineScore(lines[k], k, |lines|), k))
    else
      None
  }

  /** The outcome of the `forEach` body on every line, in line order */
  function LineCandidates(lines: seq<string>): (r: seq<Option<Candidate>>)
    ensures |r| == |lines| && forall k :: 0 <= k < |r| ==> r[k] == LineCandidate(lines, k)
  {
    seq(|lines|, k requires 0 <= k < |lines| => LineCandidate(lines, k))
  }

  /** Slot `k` of `opts`, when filled, holds the candidate of line `k` */
  predicate Indexed(opts: seq<Option<Candidate>>) {
    forall k :: 0 <= k < |opts| && opts[k].Some? ==> opts[k].value.index == k
  }

  /** The candidates pushed while visiting slots `i..` of `opts` */
  function Collect(opts: seq<Option<Candidate>>, i: nat): seq<Candidate>
    requires i <= |opts|
    decreases |opts| - i
  {
    if i == |opts| then []
    else if opts[i].Some? then [opts[i].value] + Collect(opts, i + 1)
    else Collect(opts, i + 1)
  }

  /** Everything collected from slot `i` on is the content of a filled slot from `i` on */
  lemma {:induction false} CollectSound(opts: seq<Option<Candidate>>, i: nat)
    requires i <= |opts|
    ensures forall c :: c in Collect(opts, i) ==> exists k :: i <= k < |opts| && opts[k] == Some(c)
    decreases |opts| - i
  {
    if i < |opts| {
      CollectSound(opts, i + 1);
    }
  }

  /** In an indexed sequence, collection keeps the line order */
  lemma {:induction false} CollectOrdered(opts: seq<Option<Candidate>>, i: nat)
    requires i <= |opts| && Indexed(opts)
    ensures forall a, b :: 0 <= a < b < |Collect(opts, i)| ==> Collect(opts, i)[a].index < Collect(opts, i)[b].index
    ensures forall c :: c in Collect(opts, i) ==> i <= c.index
    decreases |opts| - i
  {
    if i < |opts| {
      CollectOrdered(opts, i + 1);
      var rest := Collect(opts, i + 1);
      var r := Collect(opts, i);
      if opts[i].Some? {
        assert r == [opts[i].value] + rest;
        assert forall a :: 1 <= a < |r| ==> r[a] == rest[a - 1];
        assert forall a :: 0 <= a < |rest| ==> rest[a] in rest;
      }
    }
  }

  /** Every filled slot from `i` on is collected */
  predicate CollectsFrom(opts: seq<Option<Candidate>>, cands: seq<Candidate>, i: nat) {
    forall k :: i <= k < |opts| && opts[k].Some? ==> opts[k].value in cands
  }

  lemma {:induction false} CollectComplete(opts: seq<Option<Candidate>>, i: nat)
    requires i <= |opts|
    ensures CollectsFrom(opts, Collect(opts, i), i)
    decreases |opts| - i
  {
    if i < |opts| {
      CollectComplete(opts, i + 1);
    }
  }

  /** Each collected candidate is the candidate of its line */
  lemma CollectedAreCandidates(lines: seq<string>)
    ensures forall c :: c in Collect(LineCandidates(lines), 0) ==> CandidateOf(lines, c)
  {
    var opts := LineCandidates(lines);
    CollectSound(opts, 0);
    forall c | c in Collect(opts, 0) ensures CandidateOf(lines, c) {
      var k :| 0 <= k < |opts| && opts[k] == Some(c);
      assert LineCandidate(lines, k) == Some(c);
    }
  }

  /** Each priced line has its candidate collected */
  lemma PricedAreCollected(lines: seq<string>)
    ensures forall k :: Priced(lines, k) ==> exists c :: c in Collect(LineCandidates(lines), 0) && c.index == k
  {
    var opts := LineCandidates(lines);
    CollectComplete(opts, 0);
    forall k | Priced(lines, k) ensures exists c :: c in Collect(opts, 0) && c.index == k {
      assert LineCandidate(lines, k).Some?;
      assert opts[k].value in Collect(opts, 0);
    }
  }

  /** The candidates of a whole receipt: exactly the priced lines, in order */
  function Candidates(lines: seq<string>): (r: seq<Candidate>)
    ensures forall a :: 0 <= a < |r| ==> CandidateOf(lines, r[a])
    ensures forall a, b :: 0 <= a < b < |r| ==> r[a].index < r[b].index
    ensures forall k :: Priced(lines, k) ==> exists a :: 0 <= a < |r| && r[a].index == k
  {
    var r := Collect(LineCandidates(lines), 0);
    CollectOrdered(LineCandidates(lines), 0);
    CollectedAreCandidates(lines);
    PricedAreCollected(lines);
    assert forall a :: 0 <= a < |r| ==> r[a] in r;
    r
  }

  // ---------------------------------------------------------------------
  // Resolution
  // ---------------------------------------------------------------------

  /** `priceCounts[v]`: how many candidates carry the price `v` */
  function Count(cands: seq<Candidate>, v: nat): nat {
    if |cands| == 0 then 0
    else (if cands[0].value == v then 1 else 0) + Count(cands[1..], v)
  }

  predicate Repeated(cands: seq<Candidate>, v: nat) {
    Count(cands, v) >= 2
  }

  /** The largest repeated price among `cands[i..]` */
  function MaxRepeatedFrom(cands: seq<Candidate>, i: nat): (r: Option<nat>)
    requires i <= |cands|
    ensures r.None? ==> forall k :: i <= k < |cands| ==> !Repeated(cands, cands[k].value)
    ensures r.Some? ==> Repeated(cands, r.value) && exists k :: i <= k < |cands| && cands[k].value == r.value
    ensures r.Some? ==> forall k :: i <= k < |cands| && Repeated(cands, cands[k].value) ==> cands[k].value <= r.value
    decreases |cands| - i
  {
    if i == |cands| then None
    else
      var rest := MaxRepeatedFrom(cands, i + 1);
      var v := cands[i].value;
      if !Repeated(cands, v) then rest
      else if rest.Some? && rest.value > v then rest
      else Some(v)
  }

  /** Candidate `a` sorts before candidate `b`: higher score, or equal score and later line */
  predicate SortsBefore(a: Candidate, b: Candidate) {
    a.score > b.score || (a.score == b.score && a.index > b.index)
  }

  /** The first element after `candidates.sort((a, b) => (b.score - a.score) || (b.index - a.index))`,
      searching `cands[i..]` with `best` the first so far */
  function TopFrom(cands: seq<Candidate>, i: nat, best: nat): (k: nat)
    requires best < |cands| && i <= |cands|
    requires forall j :: 0 <= j < i ==> !SortsBefore(cands[j], cands[best])
    ensures k < |cands|
    ensures forall j :: 0 <= j < |cands| ==> !SortsBefore(cands[j], cands[k])
    decreases |cands| - i
  {
    if i == |cands| then best
    else if SortsBefore(cands[i], cands[best]) then
      assert forall j :: 0 <= j < i + 1 ==> !SortsBefore(cands[j], cands[i]) by {
        forall j | 0 <= j < i + 1 ensures !SortsBefore(cands[j], cands[i]) {
          if j < i && SortsBefore(cands[j], cands[i]) {
            SortsBeforeTransitive(cands[j], cands[i], cands[best]);
          }
        }
      }
      TopFrom(cands, i + 1, i)
    else
      TopFrom(cands, i + 1, best)
  }

  lemma SortsBeforeTransitive(a: Candidate, b: Candidate, c: Candidate)
    requires SortsBefore(a, b) && SortsBefore(b, c)
    ensures SortsBefore(a, c)
  {
  }

  /** The total as cents: the largest price seen on two or more candidate lines;
      otherwise the price of the top-scored candidate, ties to the later line;
      otherwise 0 */
  function ResolveTotal(cands: seq<Candidate>): (r: nat)
    ensures (exists k :: 0 <= k < |cands| && Repeated(cands, cands[k].value)) ==>
              && Repeated(cands, r)
              && forall k :: 0 <= k < |cands| && Repeated(cands, cands[k].value) ==> cands[k].value <= r
    ensures (forall k :: 0 <= k < |cands| ==> !Repeated(cands, cands[k].value)) && |cands| > 0 ==>
              exists k :: 0 <= k < |cands| && r == cands[k].value
                          && forall j :: 0 <= j < |cands| ==> !SortsBefore(cands[j], cands[k])
    ensures |cands| > 0 ==> exists k :: 0 <= k < |cands| && r == cands[k].value
    ensures |cands| == 0 ==> r == 0
  {
    match MaxRepeatedFrom(cands, 0)
    case Some(v) => v
    case None =>
      if |cands| == 0 then 0
      else cands[TopFrom(cands, 1, 0)].value
  }

  /** The total of a receipt, in cents */
  function ReceiptTotal(rawText: string): (r: nat)
    ensures var lines := CleanLines(rawText);
            (forall k :: 0 <= k < |lines| ==> !Priced(lines, k)) ==> r == 0
    ensures var lines := CleanLines(rawText);
            (exists k :: Priced(lines, k)) ==> exists k :: Priced(lines, k) && TrailingPrice(lines[k]) == Some(r)
  {
    var lines := CleanLines(rawText);
    ResolvedIsLinePrice(lines);
    ResolveTotal(Candidates(lines))
  }

  /** With no priced line the resolved total is 0; otherwise it is the price of a priced line */
  lemma ResolvedIsLinePrice(lines: seq<string>)
    ensures (forall k :: 0 <= k < |lines| ==> !Priced(lines, k)) ==> ResolveTotal(Candidates(lines)) == 0
    ensures (exists k :: Priced(lines, k)) ==>
            exists k :: Priced(lines, k) && TrailingPrice(lines[k]) == Some(ResolveTotal(Candidates(lines)))
  {
    var cands := Candidates(lines);
    var r := ResolveTotal(cands);
    if |cands| > 0 {
      assert CandidateOf(lines, cands[0]);
      var a :| 0 <= a < |cands| && r == cands[a].value;
      assert CandidateOf(lines, cands[a]);
    }
  }

  // ---------------------------------------------------------------------
  // Properties of the resolver
  // ---------------------------------------------------------------------

  /** The total is 0 or the trailing price of a cleaned line that is not a savings line */
  lemma TotalIsALinePrice(rawText: string)
    ensures var lines := CleanLines(rawText);
            || ReceiptTotal(rawText) == 0
            || exists k :: 0 <= k < |lines| && !IsSavings(lines[k])
                           && TrailingPrice(lines[k]) == Some(ReceiptTotal(rawText))
  {
    var lines := CleanLines(rawText);
    var cands := Candidates(lines);
    if |cands| > 0 {
      var a :| 0 <= a < |cands| && ReceiptTotal(rawText) == cands[a].value;
      assert CandidateOf(lines, cands[a]);
    }
  }

  /** A receipt whose every priced line is a savings line has total 0 */
  lemma OnlySavingsGivesZero(rawText: string)
    requires forall k :: 0 <= k < |CleanLines(rawText)| && TrailingPrice(CleanLines(rawText)[k]).Some? ==>
               IsSavings(CleanLines(rawText)[k])
    ensures ReceiptTotal(rawText) == 0
  {
    TotalIsALinePrice(rawText);
  }

  /** A price on two candidate lines beats any better-scored price seen once:
      scores only decide between prices that never repeat */
  lemma RepeatedPriceBeatsScore(cands: seq<Candidate>, a: nat, b: nat)
    requires a < b < |cands| && cands[a].value == cands[b].value
    ensures Repeated(cands, ResolveTotal(cands)) && cands[a].value <= ResolveTotal(cands)
  {
    CountAtLeastTwo(cands, a, b);
  }

  /** Two distinct positions holding `v` make `v` repeated */
  lemma {:induction false} CountAtLeastTwo(cands: seq<Candidate>, a: nat, b: nat)
    requires a < b < |cands| && cands[a].value == cands[b].value
    ensures Repeated(cands, cands[a].value)
  {
    if a > 0 {
      CountAtLeastTwo(cands[1..], a - 1, b - 1);
    } else {
      CountOfMember(cands[1..], b - 1);
    }
  }

  /** Every candidate's count is at least one: its own line */
  lemma {:induction false} CountOfMember(cands: seq<Candidate>, a: nat)
    requires a < |cands|
    ensures Count(cands, cands[a].value) >= 1
  {
    if a > 0 {
      CountOfMember(cands[1..], a - 1);
    }
  }

  // ---------------------------------------------------------------------
  // The 70% boundary in floating point
  // ---------------------------------------------------------------------

  /** The double nearest to 0.7 is SevenTenthsScaled / 2^53 */
  const SevenTenthsScaled: nat := 6305039478318694

  function Pow2(k: nat): (r: nat)
    ensures r >= 1
  {
    if k == 0 then 1 else 2 * Pow2(k - 1)
  }

  /** The position of the highest set bit of `x` */
  function Log2Floor(x: nat): nat
    requires x >= 1
  {
    if x < 2 then 0 else 1 + Log2Floor(x / 2)
  }

  /** `index > count * 0.7` evaluated in IEEE-754 doubles, as the source does:
      the product count * SevenTenthsScaled / 2^53 is rounded to 53 significant
      bits, ties to even, before the comparison */
  predicate LateAsWritten(index: nat, count: nat) {
    if count == 0 then index > 0
    else
      var exact := count * SevenTenthsScaled;
      var dropped := if Log2Floor(exact) > 52 then Log2Floor(exact) - 52 else 0;
      var unit := Pow2(dropped);
      var q := exact / unit;
      var rem := exact % unit;
      var rounded := if 2 * rem > unit || (2 * rem == unit && q % 2 == 1) then q + 1 else q;
      index * Pow2(53) > rounded * unit
  }

  /** As written, line 63 of 90 counts as late (0.7 * 90 rounds to
      62.99999999999999) while line 7 of 10 does not (0.7 * 10 rounds to 7):
      the same 70% boundary is treated two ways. The exact test treats both alike. */
  lemma LateBoundaryDiscrepancy()
    ensures LateAsWritten(63, 90) && !LateAsWritten(7, 10)
    ensures !IsLate(63, 90) && !IsLate(7, 10)
  {
    Pow2Values();
    Log2FloorBounds(90 * SevenTenthsScaled, 58);
    Log2FloorBounds(10 * SevenTenthsScaled, 55);
  }

  lemma Pow2Values()
    ensures Pow2(3) == 8 && Pow2(6) == 64 && Pow2(53) == 9007199254740992
    ensures Pow2(55) == 36028797018963968 && Pow2(58) == 288230376151711744
  {
    assert Pow2(3) == 8;
    assert Pow2(6) == 64;
    assert Pow2(13) == 8192 by { Pow2Add(6, 7); }
    assert Pow2(26) == 67108864 by { Pow2Add(13, 13); }
    assert Pow2(53) == 9007199254740992 by { Pow2Add(26, 27); }
    Pow2Add(53, 2);
    Pow2Add(53, 5);
  }

  lemma {:induction false} Pow2Add(a: nat, b: nat)
    ensures Pow2(a + b) == Pow2(a) * Pow2(b)
  {
    if a > 0 {
      Pow2Add(a - 1, b);
    }
  }

  lemma {:induction false} Log2FloorBounds(x: nat, e: nat)
    requires Pow2(e) <= x < 2 * Pow2(e)
    ensures Log2Floor(x) == e
  {
    if e > 0 {
      Log2FloorBounds(x / 2, e - 1);
    }
  }

  /** The exact test depends only on the position's proportion of the receipt:
      scaling the line count and the index alike never changes it */
  lemma IsLateScaleInvariant(index: nat, count: nat, k: nat)
    requires k > 0
    ensures IsLate(index, count) <==> IsLate(k * index, k * count)
  {
  }
}
