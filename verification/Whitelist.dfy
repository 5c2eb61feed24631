/** What a query answers, on values, with nested whitelists. */
module Whitelist {
  import opened Keywords

  /** The keywords of a trie, and its whitelists when it checks them.  A whitelist may check
      whitelists of its own; the nesting is finite. */
  datatype Dict =
    | Plain(words: set<Word>)
    | Checked(words: set<Word>, before: Dict, after: Dict)

  datatype Answer = Answer(exist: bool, found: seq<Word>, text: Word)

  // isInWhitePreffixList: the last of up to five runes ending at the first rune of the match is
  // masked by the whitelist.  `chars` is the text as masked so far.
  predicate SparedBefore(d: Dict, chars: Word, i: nat)
    requires d.Checked? && i < |chars|
    decreases d, 0
  {
    i != 0 &&
    var answer := Query(d.before, chars[if i < 4 then 0 else i - 4..i + 1]);
    answer.exist && answer.text[|answer.text| - 1] == ASTERISK
  }

  // isInWhiteSuffixList: the first of up to five runes from the last rune of the match on is masked.
  predicate SparedAfter(d: Dict, chars: Word, j: nat)
    requires d.Checked? && j < |chars|
    decreases d, 0
  {
    j + 1 != |chars| &&
    var answer := Query(d.after, chars[j..if j + 5 > |chars| then |chars| else j + 5]);
    answer.exist && answer.text[0] == ASTERISK
  }

  predicate Spared(d: Dict, chars: Word, s: Span)
    requires s.start < s.end <= |chars|
    decreases d, 1
  {
    d.Checked? && (SparedBefore(d, chars, s.start) || SparedAfter(d, chars, s.end - 1))
  }

  /** The spans that are masked, when the spans from i on are visited in order. */
  function Keep(d: Dict, chars: Word, i: nat, spans: seq<Span>): (kept: seq<Span>)
    requires InOrder(chars, i, spans)
    ensures InOrder(chars, i, kept)
    decreases d, 2, |spans|
  {
    if spans == [] then []
    else
      var s := spans[0];
      var spared := Spared(d, chars, s);
      var rest := Keep(d, if spared then chars else MaskSpan(chars, s), s.end, spans[1..]);
      if spared then rest else [s] + rest
  }

  /** The masked spans of a query: candidates that no whitelist spares. */
  function Kept(d: Dict, text: Word): (kept: seq<Span>)
    ensures InOrder(text, 0, kept)
    decreases d, 3
  {
    ScanIsSound(d.words, text, 0);
    Keep(d, text, 0, Scan(d.words, text, 0))
  }

  function Query(d: Dict, text: Word): (answer: Answer)
    ensures |answer.text| == |text|
    decreases d, 4
  {
    var kept := Kept(d, text);
    Answer(kept != [], Spelled(text, kept), Mask(text, kept))
  }

  // -------------------------------------------------------------------------------- Properties

  predicate IsSubsequence<T(==)>(a: seq<T>, b: seq<T>)
    decreases |b|
  {
    if a == [] then true
    else if b == [] then false
    else if a[0] == b[0] then IsSubsequence(a[1..], b[1..])
    else IsSubsequence(a, b[1..])
  }

  lemma {:induction false} SubsequenceOfTail<T>(a: seq<T>, b: seq<T>)
    requires b != [] && IsSubsequence(a, b[1..])
    ensures IsSubsequence(a, b)
    decreases |b|, 0
  {
    if a != [] && a[0] == b[0] {
      TailOfSubsequence(a, b[1..]);
    }
  }

  lemma {:induction false} TailOfSubsequence<T>(a: seq<T>, b: seq<T>)
    requires a != [] && IsSubsequence(a, b)
    ensures IsSubsequence(a[1..], b)
    decreases |b|, 1
  {
    if a[0] == b[0] {
      SubsequenceOfTail(a[1..], b);
    } else {
      TailOfSubsequence(a, b[1..]);
      SubsequenceOfTail(a[1..], b);
    }
  }

  lemma SpelledTail(text: Word, i: nat, spans: seq<Span>)
    requires InOrder(text, i, spans) && spans != []
    ensures InOrder(text, i, spans[1..])
    ensures Spelled(text, spans) != [] && Spelled(text, spans)[0] == text[spans[0].start..spans[0].end]
    ensures Spelled(text, spans)[1..] == Spelled(text, spans[1..])
  {
  }

  lemma {:induction false} SpelledFilters(text: Word, i: nat, kept: seq<Span>, spans: seq<Span>)
    requires InOrder(text, i, kept) && InOrder(text, i, spans) && IsSubsequence(kept, spans)
    ensures IsSubsequence(Spelled(text, kept), Spelled(text, spans))
    decreases |spans|
  {
    if kept != [] {
      SpelledTail(text, i, spans);
      if kept[0] == spans[0] {
        SpelledTail(text, i, kept);
        SpelledFilters(text, i, kept[1..], spans[1..]);
      } else {
        SpelledFilters(text, i, kept, spans[1..]);
        SubsequenceOfTail(Spelled(text, kept), Spelled(text, spans));
      }
    }
  }

  lemma {:induction false} SubsequenceIsSubset<T>(a: seq<T>, b: seq<T>, x: T)
    requires IsSubsequence(a, b) && x in a
    ensures x in b
    decreases |b|
  {
    if x != b[0] {
      SubsequenceIsSubset(if a[0] == b[0] then a[1..] else a, b[1..], x);
    }
  }

  lemma {:induction false} KeepFilters(d: Dict, chars: Word, i: nat, spans: seq<Span>)
    requires InOrder(chars, i, spans)
    ensures IsSubsequence(Keep(d, chars, i, spans), spans)
    decreases |spans|
  {
    if spans != [] {
      var s := spans[0];
      var spared := Spared(d, chars, s);
      var chars' := if spared then chars else MaskSpan(chars, s);
      KeepFilters(d, chars', s.end, spans[1..]);
      if spared {
        SubsequenceOfTail(Keep(d, chars', s.end, spans[1..]), spans);
      }
    }
  }

  lemma {:induction false} PlainKeepsAll(words: set<Word>, chars: Word, i: nat, spans: seq<Span>)
    requires InOrder(chars, i, spans)
    ensures Keep(Plain(words), chars, i, spans) == spans
    decreases |spans|
  {
    hide Query;
    if spans != [] {
      PlainKeepsAll(words, MaskSpan(chars, spans[0]), spans[0].end, spans[1..]);
    }
  }

  /** Whitelists only filter: a query that checks them finds a subsequence of what it would find
      without them, and masks a subset of the positions. */
  lemma {:induction false} WhitelistsOnlyFilter(d: Dict, text: Word)
    ensures var with, without := Query(d, text), Query(Plain(d.words), text);
      && IsSubsequence(with.found, without.found)
      && (with.exist ==> without.exist)
      && forall k :: 0 <= k < |text| ==> with.text[k] == text[k] || with.text[k] == without.text[k]
  {
    var spans := Scan(d.words, text, 0);
    ScanIsSound(d.words, text, 0);
    KeepFilters(d, text, 0, spans);
    SpelledFilters(text, 0, Kept(d, text), spans);
    PlainKeepsAll(d.words, text, 0, spans);
    forall k | 0 <= k < |text| && Covered(Kept(d, text), k) ensures Covered(spans, k) {
      var s :| s in Kept(d, text) && s.start <= k < s.end;
      SubsequenceIsSubset(Kept(d, text), spans, s);
    }
  }

  /** Every query answers the words it masked, which are keywords of two or more runes, and leaves
      all other runes as they are. */
  lemma QueryIsSound(d: Dict, text: Word)
    ensures var answer := Query(d, text); var kept := Kept(d, text);
      && answer.exist == (answer.found != []) && |answer.found| == |kept|
      && (forall k :: 0 <= k < |kept| ==> answer.found[k] == text[kept[k].start..kept[k].end])
      && (forall k :: 0 <= k < |kept| ==> answer.found[k] in d.words && |answer.found[k]| >= 2)
      && (forall k :: 0 <= k < |text| ==> answer.text[k] == if Covered(kept, k) then ASTERISK else text[k])
  {
    ScanIsSound(d.words, text, 0);
    KeepFilters(d, text, 0, Scan(d.words, text, 0));
    var kept := Kept(d, text);
    forall k | 0 <= k < |kept| ensures text[kept[k].start..kept[k].end] in d.words {
      SubsequenceIsSubset(kept, Scan(d.words, text, 0), kept[k]);
      assert IsMatch(d.words, text, kept[k].start, kept[k].end);
    }
  }

  // -------------------------------------------------------------------------------- What whitelists spare

  // Masking the first span, then the rest.
  lemma MaskFirst(text: Word, s: Span, rest: seq<Span>)
    requires InOrder(text, 0, [s] + rest) && InOrder(text, 0, rest) && s.start <= s.end <= |text|
    ensures InOrder(MaskSpan(text, s), 0, rest) && Mask(MaskSpan(text, s), rest) == Mask(text, [s] + rest)
  {
    hide InOrder;
    assert InOrder(MaskSpan(text, s), 0, rest) by {
      OrderIgnoresRunes(text, MaskSpan(text, s), 0, rest);
    }
    var masked := MaskSpan(text, s);
    forall k | 0 <= k < |text| ensures Mask(masked, rest)[k] == Mask(text, [s] + rest)[k] {
      CoveredFirst(s, rest, k);
    }
  }

  lemma OrderIgnoresRunes(a: Word, b: Word, i: nat, spans: seq<Span>)
    requires InOrder(a, i, spans) && |a| == |b|
    ensures InOrder(b, i, spans)
  {
  }

  lemma CoveredFirst(s: Span, rest: seq<Span>, k: int)
    ensures Covered([s] + rest, k) <==> s.start <= k < s.end || Covered(rest, k)
  {
    assert ([s] + rest)[0] == s;
    if t :| t in rest && t.start <= k < t.end {
      assert t in [s] + rest;
    }
  }

  lemma OrderedPrefix(text: Word, i: nat, spans: seq<Span>, m: nat)
    requires InOrder(text, i, spans) && m <= |spans|
    ensures InOrder(text, 0, spans[..m])
    ensures spans != [] ==> spans[0].start <= spans[0].end <= |text| && i <= spans[0].start
    ensures spans != [] ==> InOrder(text, spans[0].end, spans[1..])
  {
  }

  // Of the masked spans, the first m lie before the candidate.
  ghost predicate Reached(kept: seq<Span>, s: Span, m: nat) {
    && m <= |kept|
    && (forall t :: t in kept[..m] ==> t.end <= s.start) && (forall t :: t in kept[m..] ==> s.start <= t.start)
  }

  lemma ReachedNext(first: Span, rest: seq<Span>, s: Span, n: nat)
    requires Reached(rest, s, n) && first.end <= s.start
    ensures Reached([first] + rest, s, n + 1) && ([first] + rest)[..n + 1] == [first] + rest[..n]
  {
    assert ([first] + rest)[..n + 1] == [first] + rest[..n];
    assert ([first] + rest)[n + 1..] == rest[n..];
  }

  lemma KeepIs(d: Dict, chars: Word, i: nat, spans: seq<Span>)
    requires InOrder(chars, i, spans) && spans != []
    ensures var s := spans[0];
      && i <= s.start < s.start + 2 <= s.end <= |chars| && InOrder(chars, s.end, spans[1..])
      && var chars' := if Spared(d, chars, s) then chars else MaskSpan(chars, s);
         && InOrder(chars', s.end, spans[1..])
         && var rest := Keep(d, chars', s.end, spans[1..]);
            Keep(d, chars, i, spans) == (if Spared(d, chars, s) then rest else [s] + rest)
  {
    hide Spared;
  }

  // The first candidate, when `rest` are the masked ones after it.
  lemma FirstCandidate(chars: Word, i: nat, first: Span, rest: seq<Span>, spared: bool, kept: seq<Span>)
    requires InOrder(chars, i, kept) && InOrder(chars, first.end, rest) && first.start < first.end
    requires kept == if spared then rest else [first] + rest
    ensures Reached(kept, first, 0) && InOrder(chars, 0, kept[..0]) && Mask(chars, kept[..0]) == chars
    ensures first in kept <==> !spared
  {
    assert !spared ==> kept[0] == first;
  }

  // A later one.
  lemma NextCandidate(
    chars: Word, i: nat, first: Span, rest: seq<Span>, spared: bool, kept: seq<Span>, s: Span, n: nat)
    requires InOrder(chars, i, kept) && first.start < first.end <= |chars| && first.end <= s.start < s.end
    requires kept == if spared then rest else [first] + rest
    requires Reached(rest, s, n)
    ensures var m, chars' := if spared then n else n + 1, if spared then chars else MaskSpan(chars, first);
      && Reached(kept, s, m) && InOrder(chars, 0, kept[..m]) && InOrder(chars', 0, rest[..n])
      && Mask(chars, kept[..m]) == Mask(chars', rest[..n]) && (s in kept <==> s in rest)
  {
    hide Mask, MaskSpan, Reached;
    assert ReachedLength(rest, s, n) == n;
    OrderedPrefix(chars, i, kept, if spared then n else n + 1);
    if !spared {
      ReachedNext(first, rest, s, n);
      assert forall t :: t in kept <==> t == first || t in rest;
      OrderedTail(chars, first, rest, n);
      OrderIgnoresRunes(chars, MaskSpan(chars, first), 0, rest[..n]);
      MaskFirst(chars, first, rest[..n]);
    }
  }

  ghost function ReachedLength(rest: seq<Span>, s: Span, n: nat): (r: nat)
    requires Reached(rest, s, n)
    ensures r == n <= |rest|
  {
    n
  }

  lemma OrderedTail(chars: Word, first: Span, rest: seq<Span>, n: nat)
    requires n <= |rest| && InOrder(chars, 0, ([first] + rest)[..n + 1])
    ensures InOrder(chars, 0, rest[..n]) && ([first] + rest)[..n + 1] == [first] + rest[..n]
  {
    assert ([first] + rest)[..n + 1] == [first] + rest[..n];
    assert forall k :: 0 <= k < n ==> rest[..n][k] == ([first] + rest[..n])[k + 1];
  }

  lemma Apart(chars: Word, i: nat, spans: seq<Span>, k: nat)
    requires InOrder(chars, i, spans) && k < |spans|
    ensures spans[k].start < spans[k].end <= |chars| && spans[0].start < spans[0].end <= |chars|
    ensures k > 0 ==> spans[0].end <= spans[k].start && spans[k] == spans[1..][k - 1]
  {
  }

  // The masked spans among the first ones, and what the text looks like when candidate k is reached.
  lemma {:induction false} KeepReaches(d: Dict, chars: Word, i: nat, spans: seq<Span>, k: nat) returns (m: nat)
    requires InOrder(chars, i, spans) && k < |spans|
    ensures 0 <= spans[k].start < spans[k].end <= |chars|
    ensures var kept, s := Keep(d, chars, i, spans), spans[k];
      && Reached(kept, s, m) && ReachedLength(kept, s, m) == m && InOrder(chars, 0, kept[..m])
      && (s in kept <==> !Spared(d, Mask(chars, kept[..m]), s))
    decreases k
  {
    hide Keep, Spared, Mask, MaskSpan, Reached, InOrder, ReachedLength;
    var first, s := spans[0], spans[k];
    Apart(chars, i, spans, k);
    KeepIs(d, chars, i, spans);
    var spared := Spared(d, chars, first);
    var chars' := if spared then chars else MaskSpan(chars, first);
    var rest := Keep(d, chars', first.end, spans[1..]);
    var kept := Keep(d, chars, i, spans);
    if k == 0 {
      m := 0;
      OrderIgnoresRunes(chars', chars, first.end, rest);
      FirstCandidate(chars, i, first, rest, spared, kept);
    } else {
      var n := KeepReaches(d, chars', first.end, spans[1..], k - 1);
      m := if spared then n else n + 1;
      NextCandidate(chars, i, first, rest, spared, kept, s, n);
    }
  }

  /** Whatever the nesting: a candidate is left exactly when one of two things holds of the text as it is
      masked when the candidate is reached.  Either it does not start the text and the prefix whitelist masks
      the last of the up to five runes that end with its first rune; or it does not end the text and the
      suffix whitelist masks the first of the up to five runes that start with its last rune. */
  lemma KeptIff(d: Dict, text: Word, k: nat) returns (m: nat)
    requires d.Checked? && k < |Scan(d.words, text, 0)|
    ensures var kept, s := Kept(d, text), Scan(d.words, text, 0)[k];
      && Reached(kept, s, m) && InOrder(text, 0, kept[..m]) && s.start + 2 <= s.end <= |text|
      && var c := Mask(text, kept[..m]);
         var from, to := if s.start < 4 then 0 else s.start - 4, if s.end + 4 > |c| then |c| else s.end + 4;
         var before, after := Query(d.before, c[from..s.start + 1]), Query(d.after, c[s.end - 1..to]);
         s !in kept <==>
           (s.start > 0 && before.found != [] && before.text[|before.text| - 1] == 42)
           || (s.end < |c| && after.found != [] && after.text[0] == 42)
  {
    ScanIsSound(d.words, text, 0);
    var s := Scan(d.words, text, 0)[k];
    hide Keep, Scan, Query, Spared, InOrder;
    m := KeepReaches(d, text, 0, Scan(d.words, text, 0), k);
    var c := Mask(text, Kept(d, text)[..m]);
    SparedIs(d, c, s);
  }

  lemma SparedIs(d: Dict, c: Word, s: Span)
    requires d.Checked? && s.start + 2 <= s.end <= |c|
    ensures var from, to := if s.start < 4 then 0 else s.start - 4, if s.end + 4 > |c| then |c| else s.end + 4;
      var before, after := Query(d.before, c[from..s.start + 1]), Query(d.after, c[s.end - 1..to]);
      Spared(d, c, s) <==>
        (s.start > 0 && before.found != [] && before.text[|before.text| - 1] == 42)
        || (s.end < |c| && after.found != [] && after.text[0] == 42)
  {
    var from, to := if s.start < 4 then 0 else s.start - 4, if s.end + 4 > |c| then |c| else s.end + 4;
    ExistIffFound(d.before, c[from..s.start + 1]);
    ExistIffFound(d.after, c[s.end - 1..to]);
    hide Query;
  }

  lemma ExistIffFound(d: Dict, text: Word)
    ensures Query(d, text).exist <==> Query(d, text).found != []
  {
  }

  // A dictionary without keywords of two or more runes finds nothing.
  lemma {:induction false} NothingFound(d: Dict, text: Word)
    requires forall w :: w in d.words ==> |w| < 2
    ensures Query(d, text).found == []
  {
    forall a: nat, e: nat | a < |text| ensures !IsMatch(d.words, text, a, e) {
      if a + 2 <= e <= |text| {
        assert |text[a..e]| == e - a;
      }
    }
    NothingToScan(d.words, text, 0);
    KeptOfNothing(d, text);
  }

  lemma KeptOfNothing(d: Dict, text: Word)
    requires Scan(d.words, text, 0) == []
    ensures Query(d, text).found == []
  {
    assert Keep(d, text, 0, []) == [];
    assert Kept(d, text) == [];
  }

  lemma {:induction false} NothingSpared(d: Dict, chars: Word, i: nat, spans: seq<Span>)
    requires d.Checked? && InOrder(chars, i, spans)
    requires forall w :: w in d.before.words + d.after.words ==> |w| < 2
    ensures Keep(d, chars, i, spans) == spans
    decreases |spans|
  {
    if spans != [] {
      var s := spans[0];
      SparedIs(d, chars, s);
      NothingFound(d.before, chars[if s.start < 4 then 0 else s.start - 4..s.start + 1]);
      NothingFound(d.after, chars[s.end - 1..if s.end + 4 > |chars| then |chars| else s.end + 4]);
      NothingSpared(d, MaskSpan(chars, s), s.end, spans[1..]);
    }
  }

  /** Whitelists without a keyword of two or more runes change nothing. */
  lemma EmptyWhitelistsSpareNothing(d: Dict, text: Word)
    requires d.Checked? && forall w :: w in d.before.words + d.after.words ==> |w| < 2
    ensures Query(d, text) == Query(Plain(d.words), text)
  {
    ScanIsSound(d.words, text, 0);
    NothingSpared(d, text, 0, Scan(d.words, text, 0));
    PlainKeepsAll(d.words, text, 0, Scan(d.words, text, 0));
  }
}
