/** What a query over a set of keywords finds, on values: the scan of the trie, the leftmost-longest
    matching it is meant to compute, and when the two agree. */
module Keywords {

  // A rune is its code point.
  type Rune = int
  type Word = seq<Rune>

  const ASTERISK: Rune := 42

  /** The text from `start` up to, not including, `end`. */
  datatype Span = Span(start: nat, end: nat)

  // Some keyword starts with p: the trie has a node for it.
  predicate IsPath(words: set<Word>, p: Word) {
    p == [] || exists w :: w in words && p <= w
  }

  // -------------------------------------------------------------------------------- The scan

  /** The end of the match that the scan reports at i, or 0: it follows the text while the trie has
      a node for it and remembers the last end of a keyword of two or more runes in `best`; when
      the text ends first, only a keyword that ends there counts. */
  function Walk(words: set<Word>, text: Word, i: nat, j: nat, best: nat): nat
    requires i <= j <= |text|
    decreases |text| - j
  {
    if j == |text| then (if best == |text| then best else 0)
    else if !IsPath(words, text[i..j + 1]) then best
    else Walk(words, text, i, j + 1, if j > i && text[i..j + 1] in words then j + 1 else best)
  }

  predicate IsMatch(words: set<Word>, text: Word, i: nat, e: nat) {
    i + 2 <= e <= |text| && text[i..e] in words
  }

  // The rest of the text from i leads into the trie but is not a keyword.
  predicate Dangles(words: set<Word>, text: Word, i: nat)
    requires i <= |text|
  {
    IsPath(words, text[i..]) && text[i..] !in words
  }

  /** What Walk computes, said outright. */
  lemma {:induction false} WalkFinds(words: set<Word>, text: Word, i: nat, j: nat, best: nat)
    requires i <= j <= |text| && IsPath(words, text[i..j])
    requires best == 0 || (IsMatch(words, text, i, best) && best <= j)
    requires forall e :: best < e <= j ==> !IsMatch(words, text, i, e)
    ensures var r := Walk(words, text, i, j, best);
      && (r == 0 || IsMatch(words, text, i, r))
      && (r != 0 ==> forall e :: r < e ==> !IsMatch(words, text, i, e))
      && (r == 0 ==> Dangles(words, text, i) || i == |text| || forall e :: !IsMatch(words, text, i, e))
      && (r != 0 ==> !Dangles(words, text, i))
    decreases |text| - j
  {
    if j == |text| {
      assert text[i..] == text[i..j];
      if text[i..] in words && i + 2 <= j {
        assert IsMatch(words, text, i, j);
      }
    } else if !IsPath(words, text[i..j + 1]) {
      forall e | j < e <= |text| ensures text[i..e] !in words && !IsPath(words, text[i..e]) {
        if text[i..e] in words || IsPath(words, text[i..e]) {
          PathShrinks(words, text, i, j + 1, e);
        }
      }
      assert text[i..] == text[i..|text|];
    } else {
      WalkFinds(words, text, i, j + 1, if j > i && text[i..j + 1] in words then j + 1 else best);
    }
  }

  lemma PathShrinks(words: set<Word>, text: Word, i: nat, j: nat, e: nat)
    requires i <= j <= e <= |text| && (IsPath(words, text[i..e]) || text[i..e] in words)
    ensures IsPath(words, text[i..j])
  {
    assert text[i..j] <= text[i..e];
    if text[i..e] != [] {
      var w :| w in words && text[i..e] <= w;
      assert text[i..j] <= w;
    }
  }

  function MatchAt(words: set<Word>, text: Word, i: nat): (e: nat)
    requires i < |text|
    ensures e == 0 || IsMatch(words, text, i, e)
  {
    WalkFinds(words, text, i, i, 0);
    Walk(words, text, i, i, 0)
  }

  /** The spans that a query visits, from position i on. */
  function Scan(words: set<Word>, text: Word, i: nat): (spans: seq<Span>)
    requires i <= |text|
    decreases |text| - i
  {
    if i == |text| then []
    else
      var e := MatchAt(words, text, i);
      if e == 0 then Scan(words, text, i + 1) else [Span(i, e)] + Scan(words, text, e)
  }

  // -------------------------------------------------------------------------------- The reference

  ghost predicate NoMatchFrom(words: set<Word>, text: Word, from: nat, to: nat) {
    forall a, e :: from <= a < to ==> !IsMatch(words, text, a, e)
  }

  /** `spans` is the leftmost-longest matching of the keywords of two or more runes from i on. */
  ghost predicate LeftmostLongest(words: set<Word>, text: Word, i: nat, spans: seq<Span>)
    decreases spans
  {
    if spans == [] then NoMatchFrom(words, text, i, |text|)
    else
      var Span(a, e) := spans[0];
      && i <= a && NoMatchFrom(words, text, i, a)
      && IsMatch(words, text, a, e) && (forall e' :: e < e' ==> !IsMatch(words, text, a, e'))
      && LeftmostLongest(words, text, e, spans[1..])
  }

  /** There is only one leftmost-longest matching. */
  lemma {:induction false} LeftmostLongestIsUnique(words: set<Word>, text: Word, i: nat, s: seq<Span>, t: seq<Span>)
    requires LeftmostLongest(words, text, i, s) && LeftmostLongest(words, text, i, t)
    ensures s == t
    decreases s
  {
    if s != [] && t != [] {
      assert s[0] == t[0];
      LeftmostLongestIsUnique(words, text, s[0].end, s[1..], t[1..]);
    }
  }

  /** The longest keyword of two or more runes at i that ends at e or earlier, or 0. */
  function LongestAt(words: set<Word>, text: Word, i: nat, e: nat): (r: nat)
    requires i <= |text| && e <= |text|
    ensures r == 0 || (IsMatch(words, text, i, r) && r <= e)
    ensures forall e' :: r < e' <= e ==> !IsMatch(words, text, i, e')
  {
    if e < i + 2 then 0
    else if text[i..e] in words then e
    else LongestAt(words, text, i, e - 1)
  }

  function Greedy(words: set<Word>, text: Word, i: nat): (spans: seq<Span>)
    requires i <= |text|
    decreases |text| - i
  {
    if i == |text| then []
    else
      var e := LongestAt(words, text, i, |text|);
      if e == 0 then Greedy(words, text, i + 1) else [Span(i, e)] + Greedy(words, text, e)
  }

  lemma {:induction false} GreedyIsLeftmostLongest(words: set<Word>, text: Word, i: nat)
    requires i <= |text|
    ensures LeftmostLongest(words, text, i, Greedy(words, text, i))
    decreases |text| - i
  {
    if i < |text| {
      var e := LongestAt(words, text, i, |text|);
      if e == 0 {
        GreedyIsLeftmostLongest(words, text, i + 1);
      } else {
        GreedyIsLeftmostLongest(words, text, e);
        assert ([Span(i, e)] + Greedy(words, text, e))[1..] == Greedy(words, text, e);
      }
    }
  }

  // -------------------------------------------------------------------------------- Agreement

  ghost predicate CleanStarts(words: set<Word>, text: Word, spans: seq<Span>) {
    forall s :: s in spans ==> s.start <= |text| && !Dangles(words, text, s.start)
  }

  /** No match of the leftmost-longest matching starts where the text ends halfway along a longer
      keyword. */
  ghost predicate EndsCleanly(words: set<Word>, text: Word) {
    CleanStarts(words, text, Greedy(words, text, 0))
  }

  // At one position the scan misses the longest match exactly when the rest of the text dangles.
  lemma MatchAtIsLongest(words: set<Word>, text: Word, i: nat)
    requires i < |text|
    ensures var e := LongestAt(words, text, i, |text|);
      MatchAt(words, text, i) == if e != 0 && Dangles(words, text, i) then 0 else e
  {
    WalkFinds(words, text, i, i, 0);
  }

  lemma {:induction false} ScanIsGreedyIff(words: set<Word>, text: Word, i: nat)
    requires i <= |text|
    ensures Scan(words, text, i) == Greedy(words, text, i) <==> CleanStarts(words, text, Greedy(words, text, i))
    decreases |text| - i
  {
    if i < |text| {
      MatchAtIsLongest(words, text, i);
      var e := LongestAt(words, text, i, |text|);
      if e == 0 {
        ScanIsGreedyIff(words, text, i + 1);
      } else {
        var rest := Greedy(words, text, e);
        assert Greedy(words, text, i) == [Span(i, e)] + rest;
        if Dangles(words, text, i) {
          assert Span(i, e) in Greedy(words, text, i);
          ScanStarts(words, text, i + 1);
        } else {
          ScanIsGreedyIff(words, text, e);
          assert ([Span(i, e)] + Scan(words, text, e))[1..] == Scan(words, text, e);
          assert ([Span(i, e)] + rest)[1..] == rest;
        }
      }
    }
  }

  lemma {:induction false} ScanStarts(words: set<Word>, text: Word, i: nat)
    requires i <= |text|
    ensures Scan(words, text, i) != [] ==> Scan(words, text, i)[0].start >= i
    decreases |text| - i
  {
    if i < |text| && MatchAt(words, text, i) == 0 {
      ScanStarts(words, text, i + 1);
    }
  }

  /** A query computes the leftmost-longest matching if and only if the text ends cleanly. */
  lemma ScanIsLeftmostLongestIff(words: set<Word>, text: Word)
    ensures LeftmostLongest(words, text, 0, Scan(words, text, 0)) <==> EndsCleanly(words, text)
  {
    GreedyIsLeftmostLongest(words, text, 0);
    ScanIsGreedyIff(words, text, 0);
    if LeftmostLongest(words, text, 0, Scan(words, text, 0)) {
      LeftmostLongestIsUnique(words, text, 0, Scan(words, text, 0), Greedy(words, text, 0));
    }
  }

  lemma {:induction false} GreedyMatches(words: set<Word>, text: Word, i: nat, s: Span)
    requires i <= |text| && s in Greedy(words, text, i)
    ensures IsMatch(words, text, s.start, s.end)
    decreases |text| - i
  {
    var e := LongestAt(words, text, i, |text|);
    if e == 0 {
      GreedyMatches(words, text, i + 1, s);
    } else if s != Span(i, e) {
      GreedyMatches(words, text, e, s);
    }
  }

  // No keyword of two or more runes is a proper prefix of another keyword.
  ghost predicate PrefixFree(words: set<Word>) {
    forall v, w :: v in words && w in words && |v| >= 2 && v <= w ==> v == w
  }

  ghost predicate LastRuneForeign(words: set<Word>, text: Word) {
    text != [] && forall w :: w in words ==> text[|text| - 1] !in w
  }

  lemma PrefixFreeRest(words: set<Word>, text: Word, a: nat, e: nat, w: Word)
    requires PrefixFree(words) && IsMatch(words, text, a, e) && w in words && text[a..] <= w
    ensures text[a..] in words
  {
    assert text[a..e] <= text[a..];
    assert text[a..e] <= w;
    assert text[a..] == w;
  }

  lemma ForeignRest(words: set<Word>, text: Word, a: nat)
    requires LastRuneForeign(words, text) && a < |text|
    ensures !IsPath(words, text[a..])
  {
    var last := |text| - 1;
    assert text[a..][last - a] == text[last];
    forall w | w in words ensures !(text[a..] <= w) {
      assert |w| > last - a ==> w[last - a] != text[last];
    }
  }

  /** Either condition, on the keywords or on the last rune, is enough. */
  lemma SufficientForCleanEnd(words: set<Word>, text: Word)
    requires PrefixFree(words) || LastRuneForeign(words, text)
    ensures EndsCleanly(words, text)
  {
    forall s | s in Greedy(words, text, 0) ensures s.start <= |text| && !Dangles(words, text, s.start) {
      GreedyMatches(words, text, 0, s);
      if LastRuneForeign(words, text) {
        ForeignRest(words, text, s.start);
      } else if IsPath(words, text[s.start..]) {
        var w :| w in words && text[s.start..] <= w;
        PrefixFreeRest(words, text, s.start, s.end, w);
      }
    }
  }

  ghost predicate NoCleanMatchFrom(words: set<Word>, text: Word, from: nat, to: nat) {
    forall a, e :: from <= a < to && IsMatch(words, text, a, e) ==> Dangles(words, text, a)
  }

  /** `spans` is the leftmost-longest matching from i on over the starts that do not dangle. */
  ghost predicate CleanLeftmostLongest(words: set<Word>, text: Word, i: nat, spans: seq<Span>)
    decreases spans
  {
    if spans == [] then NoCleanMatchFrom(words, text, i, |text|)
    else
      var Span(a, e) := spans[0];
      && i <= a && NoCleanMatchFrom(words, text, i, a)
      && IsMatch(words, text, a, e) && !Dangles(words, text, a)
      && (forall e' :: e < e' ==> !IsMatch(words, text, a, e'))
      && CleanLeftmostLongest(words, text, e, spans[1..])
  }

  lemma {:induction false} CleanLeftmostLongestIsUnique(
      words: set<Word>, text: Word, i: nat, s: seq<Span>, t: seq<Span>)
    requires CleanLeftmostLongest(words, text, i, s) && CleanLeftmostLongest(words, text, i, t)
    ensures s == t
    decreases s
  {
    if s != [] && t != [] {
      assert s[0] == t[0];
      CleanLeftmostLongestIsUnique(words, text, s[0].end, s[1..], t[1..]);
    }
  }

  /** For every set of keywords and every text, a query computes the one leftmost-longest matching
      over the starts where the text does not end halfway along a longer keyword. */
  lemma {:induction false} ScanIsCleanLeftmostLongest(words: set<Word>, text: Word, i: nat)
    requires i <= |text|
    ensures CleanLeftmostLongest(words, text, i, Scan(words, text, i))
    decreases |text| - i
  {
    hide Walk, LongestAt, MatchAt, Dangles, IsPath;
    if i < |text| {
      MatchAtIsLongest(words, text, i);
      var e := MatchAt(words, text, i);
      if e == 0 {
        ScanIsCleanLeftmostLongest(words, text, i + 1);
      } else {
        ScanIsCleanLeftmostLongest(words, text, e);
        assert Scan(words, text, i)[1..] == Scan(words, text, e);
      }
    }
  }

  // -------------------------------------------------------------------------------- Masking

  // Every rune of the span becomes an asterisk.
  function MaskSpan(text: Word, s: Span): (r: Word)
    requires s.start <= s.end <= |text|
    ensures |r| == |text|
  {
    text[..s.start] + seq(s.end - s.start, _ => ASTERISK) + text[s.end..]
  }

  predicate InOrder(text: Word, i: nat, spans: seq<Span>) {
    && (forall k :: 0 <= k < |spans| ==> i <= spans[k].start && spans[k].start + 2 <= spans[k].end <= |text|)
    && (forall k, m :: 0 <= k < m < |spans| ==> spans[k].end <= spans[m].start)
  }

  predicate Covered(spans: seq<Span>, k: int) {
    exists s :: s in spans && s.start <= k < s.end
  }

  function Mask(text: Word, spans: seq<Span>): (r: Word)
    requires InOrder(text, 0, spans)
    ensures |r| == |text|
    ensures forall k :: 0 <= k < |text| ==> r[k] == if Covered(spans, k) then ASTERISK else text[k]
  {
    seq(|text|, k requires 0 <= k < |text| => if Covered(spans, k) then ASTERISK else text[k])
  }

  function Spelled(text: Word, spans: seq<Span>): (r: seq<Word>)
    requires InOrder(text, 0, spans)
    ensures |r| == |spans| && forall k :: 0 <= k < |spans| ==> r[k] == text[spans[k].start..spans[k].end]
  {
    seq(|spans|, k requires 0 <= k < |spans| => text[spans[k].start..spans[k].end])
  }

  /** For every set of keywords and every text, the spans are disjoint, in order, of two or more
      runes, and each spells a keyword in the original text. */
  lemma {:induction false} ScanIsSound(words: set<Word>, text: Word, i: nat)
    requires i <= |text|
    ensures InOrder(text, i, Scan(words, text, i))
    ensures forall s :: s in Scan(words, text, i) ==> IsMatch(words, text, s.start, s.end)
    decreases |text| - i
  {
    if i < |text| {
      var e := MatchAt(words, text, i);
      ScanIsSound(words, text, if e == 0 then i + 1 else e);
    }
  }

  // A text that contains no keyword of two or more runes anywhere.
  ghost predicate KeywordFree(words: set<Word>, text: Word) {
    NoMatchFrom(words, text, 0, |text|)
  }

  // Some span shares a position with the text from a up to e.
  ghost predicate Hit(spans: seq<Span>, a: nat, e: nat) {
    exists k :: a <= k < e && Covered(spans, k)
  }

  lemma {:induction false} ScanVisits(words: set<Word>, text: Word, i: nat, a: nat)
    requires i <= a < |text| && !Covered(Scan(words, text, i), a)
    ensures MatchAt(words, text, a) == 0
    decreases |text| - i
  {
    var e := MatchAt(words, text, i);
    if e == 0 {
      if i < a {
        ScanVisits(words, text, i + 1, a);
      }
    } else {
      var rest := Scan(words, text, e);
      assert Scan(words, text, i) == [Span(i, e)] + rest;
      assert Span(i, e) in Scan(words, text, i) && forall s :: s in rest ==> s in Scan(words, text, i);
      ScanVisits(words, text, e, a);
    }
  }

  /** With keywords without asterisks, the masked text contains no keyword if and only if every match
      that starts where the text dangles is hit by the leftmost-longest matching `spans` over the other
      starts. */
  lemma MaskedIsKeywordFreeIff(words: set<Word>, text: Word, spans: seq<Span>)
    requires forall w :: w in words ==> ASTERISK !in w
    requires CleanLeftmostLongest(words, text, 0, spans)
    ensures InOrder(text, 0, Scan(words, text, 0))
    ensures KeywordFree(words, Mask(text, Scan(words, text, 0))) <==>
      forall a: nat, e: nat :: IsMatch(words, text, a, e) && Dangles(words, text, a) ==> Hit(spans, a, e)
  {
    ScanIsCleanLeftmostLongest(words, text, 0);
    CleanLeftmostLongestIsUnique(words, text, 0, spans, Scan(words, text, 0));
    ScanIsSound(words, text, 0);
    var masked := Mask(text, spans);
    forall a: nat, e: nat
      ensures IsMatch(words, masked, a, e) <==> IsMatch(words, text, a, e) && !Hit(spans, a, e)
    {
      if a + 2 <= e <= |text| {
        if Hit(spans, a, e) {
          var k :| a <= k < e && Covered(spans, k);
          assert masked[a..e][k - a] == ASTERISK;
        } else {
          assert masked[a..e] == text[a..e];
        }
      }
    }
    forall a: nat, e: nat | IsMatch(words, text, a, e) && !Dangles(words, text, a) ensures Hit(spans, a, e) {
      if !Covered(spans, a) {
        ScanVisits(words, text, 0, a);
        MatchAtIsLongest(words, text, a);
      }
    }
  }

  // Every match from i on is hit by the leftmost-longest matching.
  lemma {:induction false} LeftmostLongestHits(words: set<Word>, text: Word, i: nat, spans: seq<Span>, a: nat, e: nat)
    requires LeftmostLongest(words, text, i, spans) && i <= a && IsMatch(words, text, a, e)
    ensures Hit(spans, a, e)
    decreases spans
  {
    if spans != [] {
      var s := spans[0];
      if s.end <= a {
        LeftmostLongestHits(words, text, s.end, spans[1..], a, e);
        var k :| a <= k < e && Covered(spans[1..], k);
        assert Covered(spans, k);
      } else {
        assert s in spans && Covered(spans, if s.start < a then a else s.start);
      }
    }
  }

  /** Masking the leftmost-longest matches of keywords without asterisks leaves no keyword, so a
      second query finds nothing and changes nothing. */
  lemma MaskedIsKeywordFree(words: set<Word>, text: Word)
    requires EndsCleanly(words, text) && forall w :: w in words ==> ASTERISK !in w
    ensures InOrder(text, 0, Scan(words, text, 0))
    ensures KeywordFree(words, Mask(text, Scan(words, text, 0)))
    ensures Scan(words, Mask(text, Scan(words, text, 0)), 0) == []
  {
    ScanIsLeftmostLongestIff(words, text);
    ScanIsCleanLeftmostLongest(words, text, 0);
    MaskedIsKeywordFreeIff(words, text, Scan(words, text, 0));
    forall a: nat, e: nat | IsMatch(words, text, a, e) ensures Hit(Scan(words, text, 0), a, e) {
      LeftmostLongestHits(words, text, 0, Scan(words, text, 0), a, e);
    }
    NothingToScan(words, Mask(text, Scan(words, text, 0)), 0);
  }

  lemma {:induction false} NothingToScan(words: set<Word>, text: Word, i: nat)
    requires i <= |text| && NoMatchFrom(words, text, i, |text|)
    ensures Scan(words, text, i) == []
    decreases |text| - i
  {
    if i < |text| {
      NothingToScan(words, text, i + 1);
    }
  }

  // The scan of a text in which nothing matches before i.
  lemma {:induction false} ScanSkips(words: set<Word>, text: Word, i: nat, k: nat)
    requires i <= k <= |text| && forall m :: i <= m < k ==> MatchAt(words, text, m) == 0
    ensures Scan(words, text, i) == Scan(words, text, k)
    decreases k - i
  {
    if i < k {
      ScanSkips(words, text, i + 1, k);
    }
  }

  lemma ForeignFirst(words: set<Word>, p: Word)
    requires p != [] && forall w :: w in words ==> w != [] && w[0] != p[0]
    ensures !IsPath(words, p)
  {
    forall w | w in words ensures !(p <= w) {
      assert w[0] != p[0];
    }
  }

  lemma NoMatchOffPath(words: set<Word>, text: Word, i: nat)
    requires i < |text| && !IsPath(words, text[i..i + 1])
    ensures MatchAt(words, text, i) == 0
  {
  }

  lemma AsteriskEndsPath(words: set<Word>, p: Word, k: nat)
    requires k < |p| && p[k] == ASTERISK && forall w :: w in words ==> ASTERISK !in w
    ensures !IsPath(words, p)
  {
    forall w | w in words ensures !(p <= w) {
      assert |w| > k ==> w[k] != p[k];
    }
  }

  const SOME_WORDS: set<Word> := {[97, 98], [97, 98, 99, 100, 101], [99, 100]}

  lemma MissedStart()
    ensures MatchAt(SOME_WORDS, [97, 98, 99, 100], 0) == 0 && !EndsCleanly(SOME_WORDS, [97, 98, 99, 100])
  {
    var text: Word := [97, 98, 99, 100];
    assert text[0..] == text && text <= [97, 98, 99, 100, 101];
    assert Dangles(SOME_WORDS, text, 0);
    assert text[0..2] == [97, 98] && IsMatch(SOME_WORDS, text, 0, 2);
    MatchAtIsLongest(SOME_WORDS, text, 0);
    assert Greedy(SOME_WORDS, text, 0)[0] in Greedy(SOME_WORDS, text, 0);
  }

  lemma ScanEnds(words: set<Word>, text: Word, i: nat)
    requires i < |text| && IsMatch(words, text, i, |text|)
    ensures Scan(words, text, i) == [Span(i, |text|)]
  {
    MatchAtIsLongest(words, text, i);
    assert text[i..] == text[i..|text|];
  }

  lemma FirstScan()
    ensures Scan(SOME_WORDS, [97, 98, 99, 100], 0) == [Span(2, 4)]
  {
    var text: Word := [97, 98, 99, 100];
    hide Scan, Walk, EndsCleanly;
    MissedStart();
    ForeignFirst(SOME_WORDS, [98]);
    assert text[1..2] == [98];
    NoMatchOffPath(SOME_WORDS, text, 1);
    ScanSkips(SOME_WORDS, text, 0, 2);
    assert text[2..4] == [99, 100];
    ScanEnds(SOME_WORDS, text, 2);
  }

  lemma SecondScan()
    ensures Scan(SOME_WORDS, [97, 98, ASTERISK, ASTERISK], 0) == [Span(0, 2)]
  {
    var masked: Word := [97, 98, ASTERISK, ASTERISK];
    assert masked[0..2] == [97, 98] && IsMatch(SOME_WORDS, masked, 0, 2);
    assert !IsMatch(SOME_WORDS, masked, 0, 3) && !IsMatch(SOME_WORDS, masked, 0, 4);
    assert masked[0..] == masked;
    AsteriskEndsPath(SOME_WORDS, masked, 2);
    MatchAtIsLongest(SOME_WORDS, masked, 0);
    AsteriskEndsPath(SOME_WORDS, [ASTERISK], 0);
    assert masked[2..3] == [ASTERISK] == masked[3..4];
    ScanSkips(SOME_WORDS, masked, 2, 4);
  }

  /** Without a clean end both properties fail: over {ab, abcde, cd} the scan of "abcd" misses "ab",
      and a second scan finds it in the masked text. */
  lemma UncleanEnd()
    ensures !EndsCleanly(SOME_WORDS, [97, 98, 99, 100])
    ensures Scan(SOME_WORDS, [97, 98, 99, 100], 0) == [Span(2, 4)]
    ensures InOrder([97, 98, 99, 100], 0, [Span(2, 4)])
    ensures Mask([97, 98, 99, 100], [Span(2, 4)]) == [97, 98, ASTERISK, ASTERISK]
    ensures Scan(SOME_WORDS, [97, 98, ASTERISK, ASTERISK], 0) == [Span(0, 2)]
  {
    MissedStart();
    hide Scan, EndsCleanly, Greedy, IsMatch;
    FirstScan();
    SecondScan();
    assert Covered([Span(2, 4)], 2) && Covered([Span(2, 4)], 3) by {
      assert Span(2, 4) in [Span(2, 4)];
    }
  }

  // -------------------------------------------------------------------------------- Deletion

  // A prefix of more than `index` runes is a stored keyword.
  ghost predicate SomePrefixStored(words: set<Word>, chars: Word, index: nat) {
    exists k :: index < k <= |chars| && chars[..k] in words
  }

  lemma PrefixStoredStep(words: set<Word>, chars: Word, index: nat)
    requires index < |chars|
    ensures SomePrefixStored(words, chars, index)
      <==> chars[..index + 1] in words || SomePrefixStored(words, chars, index + 1)
  {
  }

  /** What is left after Del(keyword): when a non-empty prefix of it is stored, no keyword that
      starts with its first rune; otherwise everything. */
  ghost function Deleted(words: set<Word>, keyword: Word): set<Word> {
    if SomePrefixStored(words, keyword, 0) then set w | w in words && !(keyword[..1] <= w) else words
  }

  /** Exactly the keywords that start with the same rune go, and only when a prefix is stored. */
  lemma DeletedIs(words: set<Word>, keyword: Word)
    ensures forall w :: w in Deleted(words, keyword) <==> (w in words &&
      !(w != [] && keyword != [] && w[0] == keyword[0] && SomePrefixStored(words, keyword, 0)))
  {
    if keyword != [] {
      assert forall w: Word :: keyword[..1] <= w <==> w != [] && w[0] == keyword[0];
    }
  }

  lemma DeletedLeavesNoPrefix(words: set<Word>, keyword: Word)
    ensures !SomePrefixStored(Deleted(words, keyword), keyword, 0)
  {
    assert forall k :: 0 < k <= |keyword| ==> keyword[..1] <= keyword[..k];
  }

  // A path that does not start like the argument still leads to a keyword.
  lemma DeletedKeepsPaths(words: set<Word>, keyword: Word, p: Word)
    requires IsPath(words, p) && (SomePrefixStored(words, keyword, 0) ==> !(keyword[..1] <= p))
    ensures IsPath(Deleted(words, keyword), p)
  {
    if p != [] && SomePrefixStored(words, keyword, 0) {
      var w :| w in words && p <= w;
      assert keyword[..1] <= w <==> keyword[0] == w[0];
      assert keyword[..1] <= p <==> keyword[0] == p[0];
      assert w in Deleted(words, keyword);
    }
  }

  /** Del removes its argument and nothing else if and only if no other keyword starts with the same
      rune when a prefix of the argument is stored. */
  lemma DeletesOneIff(words: set<Word>, keyword: Word)
    requires [] !in words
    ensures Deleted(words, keyword) == words - {keyword}
      <==> (SomePrefixStored(words, keyword, 0) ==> forall w :: w in words && w[0] == keyword[0] ==> w == keyword)
  {
    if SomePrefixStored(words, keyword, 0) {
      assert forall w :: w in words ==> (keyword[..1] <= w <==> w[0] == keyword[0]);
      assert forall w :: w in words && w[0] == keyword[0] ==> w !in Deleted(words, keyword);
    } else {
      assert keyword[..|keyword|] == keyword;
      assert keyword in words ==> keyword == [];
    }
  }

  /** Del of one keyword can remove another: of {ab, ac}, deleting "ab" leaves nothing. */
  lemma DeletesSibling()
    ensures Deleted({[97, 98], [97, 99]}, [97, 98]) == {}
  {
    var words: set<Word>, keyword: Word := {[97, 98], [97, 99]}, [97, 98];
    assert keyword[..2] == keyword && SomePrefixStored(words, keyword, 0);
    assert keyword[..1] == [97] && forall w :: w in words ==> [97] <= w;
  }
}
