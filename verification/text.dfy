/** String primitives the extraction engine relies on, in the form the
    JavaScript built-ins give them: ASCII case mapping, `includes`, `trim`,
    `split`, and conversions between digit strings and numbers. */
module Text {

  // ---------------------------------------------------------------------
  // Characters
  // ---------------------------------------------------------------------

  /** The regular-expression class `\d`: an ASCII decimal digit */
  predicate IsDigit(c: char) {
    '0' <= c <= '9'
  }

  /** The characters matched by `\s` and removed by `String.prototype.trim`:
      ECMAScript's WhiteSpace and LineTerminator code points */
  predicate IsSpace(c: char) {
    || c == '\t' || c == '\n' || c == '\U{000B}' || c == '\U{000C}' || c == '\r'
    || c == ' ' || c == '\U{00A0}' || c == '\U{1680}'
    || ('\U{2000}' <= c <= '\U{200A}')
    || c == '\U{2028}' || c == '\U{2029}' || c == '\U{202F}' || c == '\U{205F}'
    || c == '\U{3000}' || c == '\U{FEFF}'
  }

  function UpperChar(c: char): char {
    if 'a' <= c <= 'z' then (c as int - 32) as char else c
  }

  function LowerChar(c: char): char {
    if 'A' <= c <= 'Z' then (c as int + 32) as char else c
  }

  /** `toUpperCase`, restricted to the ASCII letters */
  function Upper(s: string): (r: string)
    ensures |r| == |s|
    ensures forall i :: 0 <= i < |s| ==> r[i] == UpperChar(s[i])
  {
    seq(|s|, i requires 0 <= i < |s| => UpperChar(s[i]))
  }

  /** `toLowerCase`, restricted to the ASCII letters */
  function Lower(s: string): (r: string)
    ensures |r| == |s|
    ensures forall i :: 0 <= i < |s| ==> r[i] == LowerChar(s[i])
  {
    seq(|s|, i requires 0 <= i < |s| => LowerChar(s[i]))
  }

  // ---------------------------------------------------------------------
  // Substrings
  // ---------------------------------------------------------------------

  predicate OccursAt(text: string, term: string, i: int) {
    0 <= i && i + |term| <= |text| && text[i..i + |term|] == term
  }

  /** `text.includes(term)` */
  predicate Contains(text: string, term: string) {
    exists i | 0 <= i <= |text| - |term| :: OccursAt(text, term, i)
  }

  /** `terms.some(t => text.includes(t))` */
  predicate ContainsAny(text: string, terms: seq<string>) {
    exists t | t in terms :: Contains(text, t)
  }

  // ---------------------------------------------------------------------
  // Trimming
  // ---------------------------------------------------------------------

  function TrimStart(s: string): (r: string)
    ensures |r| <= |s| && r == s[|s| - |r|..]
    ensures |r| > 0 ==> !IsSpace(r[0])
    ensures forall i :: 0 <= i < |s| - |r| ==> IsSpace(s[i])
  {
    if |s| > 0 && IsSpace(s[0]) then TrimStart(s[1..]) else s
  }

  /** `r` is the slice of `s` starting at `a`, and everything outside it is white space */
  predicate TrimmedAt(s: string, r: string, a: int) {
    && 0 <= a <= |s| - |r| && r == s[a..a + |r|]
    && (forall i :: 0 <= i < a ==> IsSpace(s[i]))
    && (forall i :: a + |r| <= i < |s| ==> IsSpace(s[i]))
  }

  /** The first index from `i` on that holds no white space, or |s| */
  function SkipSpaces(s: string, i: nat): (k: nat)
    requires i <= |s|
    ensures i <= k <= |s| && (forall m :: i <= m < k ==> IsSpace(s[m]))
    ensures k < |s| ==> !IsSpace(s[k])
    decreases |s| - i
  {
    if i < |s| && IsSpace(s[i]) then SkipSpaces(s, i + 1) else i
  }

  /** The start of the white-space run that ends at `j`, stopping at `lo` */
  function BackOverSpaces(s: string, lo: nat, j: nat): (k: nat)
    requires lo <= j <= |s|
    ensures lo <= k <= j && (forall m :: k <= m < j ==> IsSpace(s[m]))
    ensures k > lo ==> !IsSpace(s[k - 1])
    decreases j
  {
    if j > lo && IsSpace(s[j - 1]) then BackOverSpaces(s, lo, j - 1) else j
  }

  /** `String.prototype.trim`: the result is a slice of `s` that neither
      starts nor ends with white space, and everything cut away is white space */
  function Trim(s: string): (r: string)
    ensures exists a :: TrimmedAt(s, r, a)
    ensures |r| > 0 ==> !IsSpace(r[0]) && !IsSpace(r[|r| - 1])
  {
    var a := SkipSpaces(s, 0);
    var b := BackOverSpaces(s, a, |s|);
    assert TrimmedAt(s, s[a..b], a);
    s[a..b]
  }

  // ---------------------------------------------------------------------
  // Splitting
  // ---------------------------------------------------------------------

  /** The pieces of `cur + s` between occurrences of `sep` */
  function SplitFrom(s: string, sep: char, cur: string): (r: seq<string>)
    decreases |s|
  {
    if |s| == 0 then [cur]
    else if s[0] == sep then [cur] + SplitFrom(s[1..], sep, "")
    else SplitFrom(s[1..], sep, cur + [s[0]])
  }

  /** `s.split(sep)` for a one-character separator */
  function Split(s: string, sep: char): (r: seq<string>)
    ensures |r| >= 1
    ensures forall k :: 0 <= k < |r| ==> sep !in r[k]
    ensures Join(r, sep) == s
  {
    SplitFromProps(s, sep, "");
    SplitFrom(s, sep, "")
  }

  /** `pieces.join(sep)`: the inverse of `Split` */
  function Join(pieces: seq<string>, sep: char): string
    decreases |pieces|
  {
    if |pieces| == 0 then ""
    else if |pieces| == 1 then pieces[0]
    else pieces[0] + [sep] + Join(pieces[1..], sep)
  }

  lemma {:induction false} SplitFromProps(s: string, sep: char, cur: string)
    requires sep !in cur
    ensures |SplitFrom(s, sep, cur)| >= 1
    ensures forall k :: 0 <= k < |SplitFrom(s, sep, cur)| ==> sep !in SplitFrom(s, sep, cur)[k]
    ensures Join(SplitFrom(s, sep, cur), sep) == cur + s
    decreases |s|
  {
    if |s| == 0 {
    } else if s[0] == sep {
      SplitFromProps(s[1..], sep, "");
      var rest := SplitFrom(s[1..], sep, "");
      assert Join([cur] + rest, sep) == cur + [sep] + Join(rest, sep) by {
        assert ([cur] + rest)[1..] == rest;
      }
      assert s == [sep] + s[1..];
    } else {
      SplitFromProps(s[1..], sep, cur + [s[0]]);
      assert cur + [s[0]] + s[1..] == cur + s by { assert s == [s[0]] + s[1..]; }
    }
  }

  /** The pieces of `cur + s` between maximal runs of white space */
  function WordsFrom(s: string, cur: string): (r: seq<string>)
    decreases |s|
  {
    if |s| == 0 then [cur]
    else if IsSpace(s[0]) then [cur] + WordsFrom(TrimStart(s), "")
    else WordsFrom(s[1..], cur + [s[0]])
  }

  /** `s.split(/\s+/)`: the text is the pieces glued together by non-empty
      runs of white space, no piece holds white space, and only the first and
      the last piece may be empty (when `s` starts or ends with white space) */
  function Words(s: string): (r: seq<string>)
    ensures |r| >= 1
    ensures forall k :: 0 <= k < |r| ==> NoSpace(r[k])
    ensures forall k :: 0 < k < |r| - 1 ==> |r[k]| > 0
    ensures exists gaps :: SplitAtGaps(s, r, gaps)
    ensures Concat(r) == RemoveSpaces(s)
  {
    WordsFromProps(s, "");
    WordsFromGaps(s, "");
    assert "" + s == s;
    WordsFromInner(s, "");
    WordsFrom(s, "")
  }

  /** A separator matched by `\s+`: a non-empty run of white space */
  predicate IsGap(g: string) {
    |g| > 0 && forall i :: 0 <= i < |g| ==> IsSpace(g[i])
  }

  /** `pieces[0] + gaps[0] + pieces[1] + ... + pieces[n]` */
  function JoinWith(pieces: seq<string>, gaps: seq<string>): string
    requires |pieces| == |gaps| + 1
    decreases |gaps|
  {
    if |gaps| == 0 then pieces[0] else pieces[0] + gaps[0] + JoinWith(pieces[1..], gaps[1..])
  }

  /** `s` is `pieces` joined by the white-space runs `gaps` */
  predicate SplitAtGaps(s: string, pieces: seq<string>, gaps: seq<string>) {
    && |pieces| == |gaps| + 1
    && (forall k :: 0 <= k < |gaps| ==> IsGap(gaps[k]))
    && s == JoinWith(pieces, gaps)
  }

  predicate NoSpace(s: string) {
    forall i :: 0 <= i < |s| ==> !IsSpace(s[i])
  }

  function RemoveSpaces(s: string): (r: string)
    ensures NoSpace(r)
  {
    if |s| == 0 then ""
    else if IsSpace(s[0]) then RemoveSpaces(s[1..])
    else [s[0]] + RemoveSpaces(s[1..])
  }

  function Concat(pieces: seq<string>): string {
    if |pieces| == 0 then "" else pieces[0] + Concat(pieces[1..])
  }

  lemma {:induction false} RemoveSpacesOfSpaces(s: string, n: nat)
    requires n <= |s|
    requires forall i :: 0 <= i < n ==> IsSpace(s[i])
    ensures RemoveSpaces(s) == RemoveSpaces(s[n..])
    decreases n
  {
    if n > 0 {
      RemoveSpacesOfSpaces(s[1..], n - 1);
      assert s[1..][n - 1..] == s[n..];
    }
  }

  lemma {:induction false} WordsFromProps(s: string, cur: string)
    requires NoSpace(cur)
    ensures |WordsFrom(s, cur)| >= 1
    ensures forall k :: 0 <= k < |WordsFrom(s, cur)| ==> NoSpace(WordsFrom(s, cur)[k])
    ensures Concat(WordsFrom(s, cur)) == cur + RemoveSpaces(s)
    decreases |s|
  {
    if |s| == 0 {
      assert Concat([cur]) == cur + Concat([]);
    } else if IsSpace(s[0]) {
      var t := TrimStart(s);
      WordsFromProps(t, "");
      var rest := WordsFrom(t, "");
      RemoveSpacesOfSpaces(s, |s| - |t|);
      assert ([cur] + rest)[1..] == rest;
      assert Concat([cur] + rest) == cur + Concat(rest);
    } else {
      WordsFromProps(s[1..], cur + [s[0]]);
      assert cur + [s[0]] + RemoveSpaces(s[1..]) == cur + ([s[0]] + RemoveSpaces(s[1..]));
    }
  }

  /** The cut points of `split(/\s+/)` are the maximal white-space runs */
  lemma {:induction false} WordsFromGaps(s: string, cur: string)
    ensures exists gaps :: SplitAtGaps(cur + s, WordsFrom(s, cur), gaps)
    decreases |s|
  {
    var r := WordsFrom(s, cur);
    if |s| == 0 {
      assert SplitAtGaps(cur + s, r, []);
    } else if IsSpace(s[0]) {
      var t := TrimStart(s);
      WordsFromGaps(t, "");
      var rest := WordsFrom(t, "");
      var gs :| SplitAtGaps("" + t, rest, gs);
      var g := s[..|s| - |t|];
      assert IsGap(g);
      assert s == g + t;
      assert r == [cur] + rest;
      assert ([cur] + rest)[1..] == rest;
      assert JoinWith(r, [g] + gs) == cur + g + JoinWith(rest, gs) by {
        assert ([g] + gs)[1..] == gs;
      }
      assert SplitAtGaps(cur + s, r, [g] + gs);
    } else {
      WordsFromGaps(s[1..], cur + [s[0]]);
      assert cur + [s[0]] + s[1..] == cur + s by { assert s == [s[0]] + s[1..]; }
    }
  }

  /** Only the two end pieces of `split(/\s+/)` can be empty, and the first one
      is not when it has already begun */
  lemma {:induction false} WordsFromInner(s: string, cur: string)
    ensures |WordsFrom(s, cur)| >= 1
    ensures |cur| > 0 || (|s| > 0 && !IsSpace(s[0])) ==> |WordsFrom(s, cur)[0]| > 0
    ensures forall k :: 0 < k < |WordsFrom(s, cur)| - 1 ==> |WordsFrom(s, cur)[k]| > 0
    decreases |s|
  {
    if |s| == 0 {
    } else if IsSpace(s[0]) {
      var t := TrimStart(s);
      WordsFromInner(t, "");
      var rest := WordsFrom(t, "");
      var r := [cur] + rest;
      assert WordsFrom(s, cur) == r;
      forall k | 0 < k < |r| - 1 ensures |r[k]| > 0 {
        assert r[k] == rest[k - 1];
      }
    } else {
      WordsFromInner(s[1..], cur + [s[0]]);
    }
  }

  // ---------------------------------------------------------------------
  // Digits and numbers
  // ---------------------------------------------------------------------

  predicate AllDigits(s: string) {
    forall i :: 0 <= i < |s| ==> IsDigit(s[i])
  }

  /** `s.replace(/\D/g, '')`; a string of digits is left as it is.
      KeepDigitsMembers and KeepDigitsAppend say which characters survive and
      that they keep their order */
  function KeepDigits(s: string): (r: string)
    ensures AllDigits(r)
    ensures |r| <= |s|
    ensures AllDigits(s) ==> r == s
  {
    if |s| == 0 then ""
    else if IsDigit(s[0]) then [s[0]] + KeepDigits(s[1..])
    else KeepDigits(s[1..])
  }

  /** A character survives exactly when it is a digit of the input */
  lemma {:induction false} KeepDigitsMembers(s: string)
    ensures forall c :: c in KeepDigits(s) <==> c in s && IsDigit(c)
  {
    if |s| > 0 {
      KeepDigitsMembers(s[1..]);
      assert s == [s[0]] + s[1..];
    }
  }

  /** Removing the non-digits commutes with concatenation, so the digits keep their order */
  lemma {:induction false} KeepDigitsAppend(a: string, b: string)
    ensures KeepDigits(a + b) == KeepDigits(a) + KeepDigits(b)
  {
    if |a| > 0 {
      assert (a + b)[1..] == a[1..] + b;
      KeepDigitsAppend(a[1..], b);
    } else {
      assert a + b == b;
    }
  }

  function DigitChar(d: nat): (c: char)
    requires d < 10
    ensures IsDigit(c)
  {
    ('0' as int + d) as char
  }

  function DigitValue(c: char): (d: nat)
    requires IsDigit(c)
    ensures d < 10 && DigitChar(d) == c
  {
    c as int - '0' as int
  }

  /** The number a string of decimal digits denotes (0 for the empty string), as `parseInt` reads it */
  function DigitsValue(s: string): nat
    requires AllDigits(s)
  {
    if |s| == 0 then 0 else DigitsValue(s[..|s| - 1]) * 10 + DigitValue(s[|s| - 1])
  }

  /** The decimal rendering JavaScript gives a non-negative integer */
  function NatToString(n: nat): (r: string)
    ensures AllDigits(r) && |r| >= 1
  {
    if n < 10 then [DigitChar(n)] else NatToString(n / 10) + [DigitChar(n % 10)]
  }

  /** The decimal rendering JavaScript gives any integer */
  function IntToString(n: int): (r: string)
    ensures |r| >= 1
  {
    if n < 0 then "-" + NatToString(-n) else NatToString(n)
  }

  /** Reading back a rendered number gives the number */
  lemma {:induction false} NatToStringRoundTrip(n: nat)
    ensures DigitsValue(NatToString(n)) == n
  {
    if n >= 10 {
      NatToStringRoundTrip(n / 10);
      var r := NatToString(n);
      assert r[..|r| - 1] == NatToString(n / 10);
      DigitValueOfDigitChar(n % 10);
    } else {
      DigitValueOfDigitChar(n);
    }
  }

  lemma DigitValueOfDigitChar(d: nat)
    requires d < 10
    ensures DigitValue(DigitChar(d)) == d
  {
  }

  /** Only 0 is rendered with a leading zero */
  lemma {:induction false} NatToStringLeadingDigit(n: nat)
    ensures NatToString(n)[0] == '0' ==> n == 0
  {
    if n >= 10 {
      NatToStringLeadingDigit(n / 10);
      assert NatToString(n)[0] == NatToString(n / 10)[0];
    }
  }

  /** Renderings of numbers below 10, below 100, below 1000 and below 10000 */
  lemma {:induction false} NatToStringLength(n: nat)
    ensures n < 10 ==> |NatToString(n)| == 1
    ensures 10 <= n < 100 ==> |NatToString(n)| == 2
    ensures 100 <= n < 1000 ==> |NatToString(n)| == 3
    ensures 1000 <= n < 10000 ==> |NatToString(n)| == 4
  {
    if n >= 10 {
      NatToStringLength(n / 10);
    }
  }

  lemma TwoDigitsValue(a: nat, b: nat)
    requires a < 10 && b < 10
    ensures DigitsValue([DigitChar(a), DigitChar(b)]) == a * 10 + b
  {
    var s := [DigitChar(a), DigitChar(b)];
    var s1 := [DigitChar(a)];
    DigitValueOfDigitChar(a);
    DigitValueOfDigitChar(b);
    assert s1[..0] == [];
    assert DigitsValue(s1) == a;
    assert s[..1] == s1;
    assert DigitsValue(s) == DigitsValue(s1) * 10 + b;
  }

  lemma LastTwoDigitsArith(n: nat)
    ensures ((n / 10) % 10) * 10 + n % 10 == n % 100
  {
    var q := n / 100;
    var m := n % 100;
    assert n == 100 * q + m;
    assert n / 10 == 10 * q + m / 10;
    assert (n / 10) % 10 == m / 10;
    assert n % 10 == m % 10;
  }

  /** The last two characters of a rendering denote the number modulo 100 */
  lemma NatToStringLastTwo(n: nat)
    requires n >= 10
    ensures |NatToString(n)| >= 2
    ensures DigitsValue(NatToString(n)[|NatToString(n)| - 2..]) == n % 100
  {
    var r := NatToString(n);
    var h := NatToString(n / 10);
    var d0 := n % 10;
    var d1 := (n / 10) % 10;
    assert r == h + [DigitChar(d0)];
    assert h[|h| - 1] == DigitChar(d1) by {
      if n / 10 >= 10 {
        assert h == NatToString(n / 10 / 10) + [DigitChar(d1)];
      }
    }
    assert r[|r| - 2..] == [DigitChar(d1), DigitChar(d0)];
    TwoDigitsValue(d1, d0);
    LastTwoDigitsArith(n);
  }

  /** A number below 100 in two digits, with a leading zero below 10 */
  function PadTwo(n: nat): (r: string)
    requires n < 100
    ensures |r| == 2 && AllDigits(r) && DigitsValue(r) == n
  {
    NatToStringLength(n);
    NatToStringRoundTrip(n);
    var r := (if n < 10 then "0" else "") + NatToString(n);
    assert n < 10 ==> r[..1] == "0" && r[1] == NatToString(n)[0];
    r
  }

}
