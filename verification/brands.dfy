/** The brand fingerprint matcher (`BRAND_DATA` and `autoDetectStore`):
    identifies the merchant of a receipt from exact and fuzzy term hits
    against a fixed, ordered table of fingerprints. */
module Brands {
  import opened Optional
  import opened Text
  import opened Levenshtein

  /** One merchant: `instant` terms confirm it outright, each `strong` anchor
      is worth 2 points (exact or fuzzy), each `weak` anchor 1 point (exact only). */
  datatype Fingerprint = Fingerprint(name: string, instant: seq<string>, strong: seq<string>, weak: seq<string>)

  /** The sentinel returned when no fingerprint scores */
  const Other: string := "Other"

  /** `BRAND_DATA`, in declaration order (`Object.entries` order) */
  const BrandData: seq<Fingerprint> := [
    Fingerprint("Meijer", ["MEIJER"], ["MPERKS", "26"],
                ["1005 E 13 MILE", "MADISON HEIGHTS", "48071", "307-4900"]),
    Fingerprint("Kroger", ["KROGER"], ["PLUS CUSTOMER", "FUEL POINTS", "LOW PRICES", "PLUS CARD"],
                ["2200 E 12 MILE", "2483971520"]),
    Fingerprint("Costco", ["COSTCO"], ["WHOLESALE", "MEMBER"],
                ["393", "30550 STEPHENSON", "48071"]),
    Fingerprint("Target", ["TARGET"], ["CIRCLE", "REDCARD"],
                ["614-9792", "1301 COOLIDGE", "49084"]),
    Fingerprint("Home Depot", ["HOME DEPOT", "DEPOT"], ["DOERS", "GET MORE DONE"],
                ["1177 COOLIDGE", "48084", "816-8001"]),
    Fingerprint("Trader Joes", ["TRADER JOES", "TRADERJOES"], ["JOE'S", "9:00AM", "9:00PM"],
                ["27880 WOODWARD", "48067", "582-9002"]),
    Fingerprint("Ace", ["ACE HARDWARE", "GREAT LAKES ACE"], ["HARDWARE"],
                ["18086", "541-4904", "515 E. 4TH"])
  ]

  // ---------------------------------------------------------------------
  // Scoring one fingerprint
  // ---------------------------------------------------------------------

  predicate InstantHit(fp: Fingerprint, upper: string) {
    ContainsAny(upper, fp.instant)
  }

  /** Number of words whose similarity to `anchor` is at least 0.7 */
  function FuzzyHits(words: seq<string>, anchor: string): (n: nat)
    ensures n <= |words|
    ensures n == 0 <==> forall k :: 0 <= k < |words| ==> !FuzzyMatch(words[k], anchor)
    ensures n == |words| <==> forall k :: 0 <= k < |words| ==> FuzzyMatch(words[k], anchor)
  {
    if |words| == 0 then 0
    else (if FuzzyMatch(words[0], anchor) then 1 else 0) + FuzzyHits(words[1..], anchor)
  }

  /** Fuzzy hits count word by word: the hits of two word lists add up */
  lemma {:induction false} FuzzyHitsAppend(u: seq<string>, v: seq<string>, anchor: string)
    ensures FuzzyHits(u + v, anchor) == FuzzyHits(u, anchor) + FuzzyHits(v, anchor)
  {
    if |u| == 0 {
      assert u + v == v;
    } else {
      assert (u + v)[1..] == u[1..] + v;
      FuzzyHitsAppend(u[1..], v, anchor);
    }
  }

  /** An anchor that adds nothing: it is not in the text and no word resembles it */
  predicate Silent(anchor: string, upper: string, words: seq<string>) {
    !Contains(upper, anchor) && forall k :: 0 <= k < |words| ==> !FuzzyMatch(words[k], anchor)
  }

  /** 2 points per anchor found in the text, otherwise 2 points per word fuzzily matching it */
  function StrongPoints(anchors: seq<string>, upper: string, words: seq<string>): nat {
    if |anchors| == 0 then 0
    else AnchorPoints(anchors[0], upper, words) + StrongPoints(anchors[1..], upper, words)
  }

  /** What one strong anchor adds */
  function AnchorPoints(anchor: string, upper: string, words: seq<string>): (n: nat)
    ensures n == 0 <==> Silent(anchor, upper, words)
    ensures Contains(upper, anchor) ==> n == 2
  {
    if Contains(upper, anchor) then 2 else 2 * FuzzyHits(words, anchor)
  }

  /** An anchor missing from the text earns its points word by word: 2 for each
      word resembling it, so the points of two word lists add up */
  lemma AnchorPointsPerWord(anchor: string, upper: string, u: seq<string>, v: seq<string>, w: string)
    requires !Contains(upper, anchor)
    ensures AnchorPoints(anchor, upper, u + v) == AnchorPoints(anchor, upper, u) + AnchorPoints(anchor, upper, v)
    ensures AnchorPoints(anchor, upper, [w]) == if FuzzyMatch(w, anchor) then 2 else 0
  {
    FuzzyHitsAppend(u, v, anchor);
  }

  /** The strong anchors add nothing exactly when every one of them is silent */
  lemma {:induction false} StrongPointsZeroIff(anchors: seq<string>, upper: string, words: seq<string>)
    ensures StrongPoints(anchors, upper, words) == 0 <==>
            forall k :: 0 <= k < |anchors| ==> Silent(anchors[k], upper, words)
  {
    if |anchors| > 0 {
      var tail := anchors[1..];
      StrongPointsZeroIff(tail, upper, words);
      assert StrongPoints(anchors, upper, words)
             == AnchorPoints(anchors[0], upper, words) + StrongPoints(tail, upper, words);
      assert forall k :: 1 <= k < |anchors| ==> tail[k - 1] == anchors[k];
    }
  }

  /** When every strong anchor occurs in the text, each adds 2 */
  lemma {:induction false} StrongPointsAllFound(anchors: seq<string>, upper: string, words: seq<string>)
    requires forall k :: 0 <= k < |anchors| ==> Contains(upper, anchors[k])
    ensures StrongPoints(anchors, upper, words) == 2 * |anchors|
  {
    if |anchors| > 0 {
      var tail := anchors[1..];
      assert forall k :: 0 <= k < |tail| ==> tail[k] == anchors[k + 1];
      StrongPointsAllFound(tail, upper, words);
      assert StrongPoints(anchors, upper, words)
             == AnchorPoints(anchors[0], upper, words) + StrongPoints(tail, upper, words);
    }
  }

  /** 1 point per term found in the text */
  function WeakPoints(terms: seq<string>, upper: string): (n: nat)
    ensures n <= |terms|
    ensures n == 0 <==> forall k :: 0 <= k < |terms| ==> !Contains(upper, terms[k])
    ensures n == |terms| <==> forall k :: 0 <= k < |terms| ==> Contains(upper, terms[k])
  {
    if |terms| == 0 then 0
    else (if Contains(upper, terms[0]) then 1 else 0) + WeakPoints(terms[1..], upper)
  }

  /** Weak points count term by term: the points of two term lists add up */
  lemma {:induction false} WeakPointsAppend(u: seq<string>, v: seq<string>, upper: string)
    ensures WeakPoints(u + v, upper) == WeakPoints(u, upper) + WeakPoints(v, upper)
  {
    if |u| == 0 {
      assert u + v == v;
    } else {
      assert (u + v)[1..] == u[1..] + v;
      WeakPointsAppend(u[1..], v, upper);
    }
  }

  /** The points of one fingerprint */
  function Score(fp: Fingerprint, upper: string, words: seq<string>): nat {
    StrongPoints(fp.strong, upper, words) + WeakPoints(fp.weak, upper)
  }

  /** A fingerprint scores nothing exactly when every strong anchor is silent
      and no weak term occurs */
  lemma ScoreZeroIff(fp: Fingerprint, upper: string, words: seq<string>)
    ensures Score(fp, upper, words) == 0 <==>
            && (forall k :: 0 <= k < |fp.strong| ==> Silent(fp.strong[k], upper, words))
            && (forall k :: 0 <= k < |fp.weak| ==> !Contains(upper, fp.weak[k]))
  {
    StrongPointsZeroIff(fp.strong, upper, words);
  }

  // ---------------------------------------------------------------------
  // The scan over the table
  // ---------------------------------------------------------------------

  /** Whether each entry's instant terms occur in the text, in table order */
  function Hits(brands: seq<Fingerprint>, upper: string): (r: seq<bool>)
    ensures |r| == |brands| && forall k :: 0 <= k < |r| ==> (r[k] <==> InstantHit(brands[k], upper))
  {
    seq(|brands|, k requires 0 <= k < |brands| => InstantHit(brands[k], upper))
  }

  /** Each entry's score, in table order */
  function Scores(brands: seq<Fingerprint>, upper: string, words: seq<string>): (r: seq<nat>)
    ensures |r| == |brands| && forall k :: 0 <= k < |r| ==> r[k] == Score(brands[k], upper, words)
  {
    seq(|brands|, k requires 0 <= k < |brands| => Score(brands[k], upper, words))
  }

  /** The loop of `autoDetectStore` from entry `i` on, given each entry's
      instant hit and score; `best`/`highest` are the best entry so far and
      its score. An instant hit returns at once. */
  function Scan(hits: seq<bool>, scores: seq<nat>, i: nat, best: Option<nat>, highest: nat): (r: Option<nat>)
    requires |hits| == |scores| && i <= |scores|
    requires best.Some? ==> best.value < |scores|
    ensures r.Some? ==> r.value < |scores|
    decreases |scores| - i
  {
    if i == |scores| then best
    else if hits[i] then Some(i)
    else if scores[i] > highest then Scan(hits, scores, i + 1, Some(i), scores[i])
    else Scan(hits, scores, i + 1, best, highest)
  }

  /** The index of the entry `autoDetectStore` picks for `rawText`, None for "Other" */
  function Detect(brands: seq<Fingerprint>, rawText: string): (r: Option<nat>)
    ensures r.Some? ==> r.value < |brands|
  {
    var upper := Upper(rawText);
    Scan(Hits(brands, upper), Scores(brands, upper, Words(upper)), 0, None, 0)
  }

  function NameOf(brands: seq<Fingerprint>, r: Option<nat>): (name: string)
    requires r.Some? ==> r.value < |brands|
    ensures name == Other || exists k :: 0 <= k < |brands| && brands[k].name == name
  {
    match r
    case None => Other
    case Some(k) => brands[k].name
  }

  /** `autoDetectStore`: the return value is always a table name or "Other" */
  function AutoDetectStore(rawText: string): (name: string)
    ensures name == Other || exists k :: 0 <= k < |BrandData| && BrandData[k].name == name
  {
    NameOf(BrandData, Detect(BrandData, rawText))
  }

  // ---------------------------------------------------------------------
  // What the scan computes
  // ---------------------------------------------------------------------

  /** Entry `k` has a positive score, no entry scores more, and every earlier entry scores less */
  predicate IsWinner(scores: seq<nat>, k: nat)
    requires k < |scores|
  {
    && scores[k] > 0
    && (forall j :: 0 <= j < |scores| ==> scores[j] <= scores[k])
    && (forall j :: 0 <= j < k ==> scores[j] < scores[k])
  }

  /** What holds of `best`/`highest` after the scan has passed entries 0..i-1 */
  predicate ScanInvariant(hits: seq<bool>, scores: seq<nat>, i: nat, best: Option<nat>, highest: nat)
  {
    && i <= |scores| == |hits|
    && (forall j :: 0 <= j < i ==> !hits[j])
    && (forall j :: 0 <= j < i ==> scores[j] <= highest)
    && (best.None? ==> highest == 0)
    && (best.Some? ==>
          && best.value < i
          && highest == scores[best.value] > 0
          && forall j :: 0 <= j < best.value ==> scores[j] < highest)
  }

  lemma {:induction false} ScanFindsFirstInstant(hits: seq<bool>, scores: seq<nat>,
                                                 i: nat, best: Option<nat>, highest: nat, k: nat)
    requires ScanInvariant(hits, scores, i, best, highest)
    requires i <= k < |scores| && hits[k]
    requires forall j :: i <= j < k ==> !hits[j]
    ensures Scan(hits, scores, i, best, highest) == Some(k)
    decreases |scores| - i
  {
    if i < k {
      if scores[i] > highest {
        ScanFindsFirstInstant(hits, scores, i + 1, Some(i), scores[i], k);
      } else {
        ScanFindsFirstInstant(hits, scores, i + 1, best, highest, k);
      }
    }
  }

  lemma {:induction false} ScanWithoutInstant(hits: seq<bool>, scores: seq<nat>,
                                              i: nat, best: Option<nat>, highest: nat)
    requires ScanInvariant(hits, scores, i, best, highest)
    requires forall j :: i <= j < |scores| ==> !hits[j]
    ensures var r := Scan(hits, scores, i, best, highest);
            && (r.None? <==> forall j :: 0 <= j < |scores| ==> scores[j] == 0)
            && (r.Some? ==> IsWinner(scores, r.value))
    decreases |scores| - i
  {
    if i == |scores| {
      if best.Some? {
        assert scores[best.value] != 0;
      }
    } else if scores[i] > highest {
      ScanWithoutInstant(hits, scores, i + 1, Some(i), scores[i]);
    } else {
      ScanWithoutInstant(hits, scores, i + 1, best, highest);
    }
  }

  /** An instant term of entry k, with none in any earlier entry, makes entry k
      the result, whatever the other entries' anchors would score */
  lemma FirstInstantWins(brands: seq<Fingerprint>, rawText: string, k: nat)
    requires k < |brands| && InstantHit(brands[k], Upper(rawText))
    requires forall j :: 0 <= j < k ==> !InstantHit(brands[j], Upper(rawText))
    ensures Detect(brands, rawText) == Some(k)
  {
    var upper := Upper(rawText);
    ScanFindsFirstInstant(Hits(brands, upper), Scores(brands, upper, Words(upper)), 0, None, 0, k);
  }

  /** Without an instant hit the result is "Other" exactly when every entry
      scores 0, and otherwise an entry with the highest score, the earliest among ties */
  lemma NoInstantPicksBestScore(brands: seq<Fingerprint>, rawText: string)
    requires forall j :: 0 <= j < |brands| ==> !InstantHit(brands[j], Upper(rawText))
    ensures var upper := Upper(rawText);
            var scores := Scores(brands, upper, Words(upper));
            var r := Detect(brands, rawText);
            && (r.None? <==> forall j :: 0 <= j < |brands| ==> Score(brands[j], upper, Words(upper)) == 0)
            && (r.Some? ==> IsWinner(scores, r.value))
  {
    var upper := Upper(rawText);
    var scores := Scores(brands, upper, Words(upper));
    ScanWithoutInstant(Hits(brands, upper), scores, 0, None, 0);
    assert (forall j :: 0 <= j < |brands| ==> Score(brands[j], upper, Words(upper)) == 0) <==>
           (forall j :: 0 <= j < |scores| ==> scores[j] == 0);
  }

  /** No table entry is called "Other", so "Other" always means "nothing matched" */
  lemma BrandDataNamesDistinct()
    ensures forall k :: 0 <= k < |BrandData| ==> BrandData[k].name != Other
    ensures forall j, k :: 0 <= j < k < |BrandData| ==> BrandData[j].name != BrandData[k].name
  {
  }

  /** `autoDetectStore` answers "Other" exactly when no instant term appears and every fingerprint scores 0 */
  lemma OtherIffNothingScores(rawText: string)
    ensures var upper := Upper(rawText);
            AutoDetectStore(rawText) == Other <==>
              forall j :: 0 <= j < |BrandData| ==>
                !InstantHit(BrandData[j], upper) && Score(BrandData[j], upper, Words(upper)) == 0
  {
    var upper := Upper(rawText);
    BrandDataNamesDistinct();
    if exists k :: 0 <= k < |BrandData| && InstantHit(BrandData[k], upper) {
      var k := FirstInstantIndex(BrandData, upper);
      FirstInstantWins(BrandData, rawText, k);
    } else {
      NoInstantPicksBestScore(BrandData, rawText);
    }
  }

  /** The least index of an entry with an instant hit */
  function FirstInstantIndex(brands: seq<Fingerprint>, upper: string): (k: nat)
    requires exists k :: 0 <= k < |brands| && InstantHit(brands[k], upper)
    ensures k < |brands| && InstantHit(brands[k], upper)
    ensures forall j :: 0 <= j < k ==> !InstantHit(brands[j], upper)
    decreases |brands|
  {
    if InstantHit(brands[0], upper) then 0
    else
      assert exists k :: 0 <= k < |brands[1..]| && InstantHit(brands[1..][k], upper) by {
        var k :| 0 <= k < |brands| && InstantHit(brands[k], upper);
        assert brands[1..][k - 1] == brands[k];
      }
      1 + FirstInstantIndex(brands[1..], upper)
  }

  /** A receipt reading COSTCO is a Costco receipt unless it also names Meijer or
      Kroger, the two fingerprints declared before it */
  lemma CostcoInstant(rawText: string)
    requires Contains(Upper(rawText), "COSTCO")
    requires !Contains(Upper(rawText), "MEIJER") && !Contains(Upper(rawText), "KROGER")
    ensures AutoDetectStore(rawText) == "Costco"
  {
    var upper := Upper(rawText);
    assert InstantHit(BrandData[2], upper) by {
      assert "COSTCO" in BrandData[2].instant;
    }
    FirstInstantWins(BrandData, rawText, 2);
  }
}
