/**
 * The trigger matcher: the pattern `\bw1\b|\bw2\b|...` built from a group's
 * escaped words, compiled with `re.I`, and `findall` over a message.
 *
 * Words are literal text (they are escaped), so an alternative matches at a
 * position exactly when there is a word boundary there, the next `|w|`
 * characters equal `w` ignoring ASCII case, and there is a word boundary
 * after them. The scan tries the alternatives in list order at each position,
 * takes the first that matches, and resumes after it; with no match it moves
 * one character on.
 */
module Matching {
  import opened Wrappers
  import opened Text

  /** Position `i` holds a word character (out of range counts as non-word). */
  predicate WordCharAt(s: string, i: int)
  {
    0 <= i < |s| && IsWordChar(s[i])
  }

  /** `\b` at position `i`: exactly one of the characters around it is a word character. */
  predicate IsBoundary(s: string, i: int)
  {
    WordCharAt(s, i - 1) != WordCharAt(s, i)
  }

  /** The alternative `\bw\b` matches the text starting at `i`. */
  predicate MatchesAt(s: string, i: int, w: string)
  {
    && 0 <= i && i + |w| <= |s|
    && IsBoundary(s, i)
    && EqualsIgnoreCase(s[i..i + |w|], w)
    && IsBoundary(s, i + |w|)
  }

  /** Some configured word occurs in `s` as a whole word. */
  predicate Occurs(words: seq<string>, s: string)
  {
    exists i, k {:trigger MatchesAt(s, i, words[k])} :: 0 <= i < |s| && 0 <= k < |words| && MatchesAt(s, i, words[k])
  }

  /** Configured words are non-empty, so every match consumes text. */
  predicate NonEmptyWords(words: seq<string>)
  {
    forall k :: 0 <= k < |words| ==> |words[k]| > 0
  }

  /** The first alternative, from index `from` on, that matches at `i`. */
  function FirstWordFrom(words: seq<string>, s: string, i: int, from: nat): (r: Option<nat>)
    ensures r.Some? ==> from <= r.value < |words| && MatchesAt(s, i, words[r.value])
    ensures r.Some? ==> forall k {:trigger MatchesAt(s, i, words[k])} :: from <= k < r.value ==> !MatchesAt(s, i, words[k])
    ensures r.None? ==> forall k {:trigger MatchesAt(s, i, words[k])} :: from <= k < |words| ==> !MatchesAt(s, i, words[k])
    decreases |words| - from
  {
    if from >= |words| then None
    else if MatchesAt(s, i, words[from]) then Some(from)
    else FirstWordFrom(words, s, i, from + 1)
  }

  /** One match found by `findall`: where it starts and which alternative produced it. */
  datatype Hit = Hit(start: nat, word: nat)

  function HitEnd(words: seq<string>, h: Hit): int
    requires h.word < |words|
  {
    h.start + |words[h.word]|
  }

  /**
   * The scan of `findall` from position `pos`: every hit is a match of the
   * first alternative that matches there, and hits come in order without
   * overlapping.
   */
  function Scan(words: seq<string>, s: string, pos: nat): (hits: seq<Hit>)
    requires NonEmptyWords(words)
    ensures forall j :: 0 <= j < |hits| ==>
              && pos <= hits[j].start && hits[j].word < |words|
              && MatchesAt(s, hits[j].start, words[hits[j].word])
              && forall k {:trigger MatchesAt(s, hits[j].start, words[k])} :: 0 <= k < hits[j].word ==> !MatchesAt(s, hits[j].start, words[k])
    ensures forall j1, j2 :: 0 <= j1 < j2 < |hits| ==> HitEnd(words, hits[j1]) <= hits[j2].start
    decreases |s| - pos
  {
    if pos >= |s| then []
    else
      match FirstWordFrom(words, s, pos, 0)
      case Some(k) => [Hit(pos, k)] + Scan(words, s, pos + |words[k]|)
      case None => Scan(words, s, pos + 1)
  }

  /** The list `pattern.findall(text)` returns: the matched text, with the message's own casing. */
  function FindAll(words: seq<string>, s: string): (found: seq<string>)
    requires NonEmptyWords(words)
    ensures |found| == |Scan(words, s, 0)|
    ensures forall j :: 0 <= j < |found| ==>
              found[j] == s[Scan(words, s, 0)[j].start..HitEnd(words, Scan(words, s, 0)[j])]
    ensures forall j :: 0 <= j < |found| ==>
              exists i, k :: 0 <= i < |s| && 0 <= k < |words| && MatchesAt(s, i, words[k]) && found[j] == s[i..i + |words[k]|]
  {
    var hits := Scan(words, s, 0);
    var found := seq(|hits|, j requires 0 <= j < |hits| => s[hits[j].start..HitEnd(words, hits[j])]);
    assert forall j :: 0 <= j < |found| ==> MatchesAt(s, hits[j].start, words[hits[j].word]);
    found
  }

  /** `set(pattern.findall(text))`: empty exactly when no configured word occurs as a whole word. */
  function Matches(words: seq<string>, s: string): (found: set<string>)
    requires NonEmptyWords(words)
    ensures found == set j | 0 <= j < |Scan(words, s, 0)| :: s[Scan(words, s, 0)[j].start..HitEnd(words, Scan(words, s, 0)[j])]
    ensures found != {} <==> Occurs(words, s)
  {
    var all := FindAll(words, s);
    var found := set m | m in all;
    ScanFindsOccurrence(words, s);
    assert all != [] ==> all[0] in found;
    found
  }

  /** No alternative matches anywhere in `[lo, hi)`. */
  predicate NoMatchIn(words: seq<string>, s: string, lo: int, hi: int)
  {
    forall i, k {:trigger MatchesAt(s, i, words[k])} :: lo <= i < hi && 0 <= k < |words| ==> !MatchesAt(s, i, words[k])
  }

  /**
   * Nothing matches from `lo` up to the first hit, from the end of each hit
   * up to the next, or from the end of the last hit to the end of the text.
   */
  predicate GapsClear(words: seq<string>, s: string, lo: int, hits: seq<Hit>)
    decreases |hits|
  {
    if hits == [] then NoMatchIn(words, s, lo, |s|)
    else
      && hits[0].word < |words|
      && NoMatchIn(words, s, lo, hits[0].start)
      && GapsClear(words, s, HitEnd(words, hits[0]), hits[1..])
  }

  /** The scan leaves every gap clear. */
  lemma {:induction false} ScanGapsClear(words: seq<string>, s: string, pos: nat)
    requires NonEmptyWords(words)
    ensures GapsClear(words, s, pos, Scan(words, s, pos))
    decreases |s| - pos
  {
    if pos < |s| {
      var first := FirstWordFrom(words, s, pos, 0);
      if first.None? {
        ScanGapsClear(words, s, pos + 1);
        ScanSkipGaps(words, s, pos);
      } else {
        ScanGapsClear(words, s, pos + |words[first.value]|);
        ScanHitGaps(words, s, pos, first.value);
      }
    }
  }

  /** Where nothing matches, the scan moves on and the first gap grows by one. */
  lemma ScanSkipGaps(words: seq<string>, s: string, pos: nat)
    requires NonEmptyWords(words)
    requires pos < |s| && FirstWordFrom(words, s, pos, 0).None?
    requires GapsClear(words, s, pos + 1, Scan(words, s, pos + 1))
    ensures GapsClear(words, s, pos, Scan(words, s, pos))
  {
    assert Scan(words, s, pos) == Scan(words, s, pos + 1);
    GapsClearExtend(words, s, pos, Scan(words, s, pos + 1));
  }

  /** Where an alternative matches, its hit comes first and the gaps are those after it. */
  lemma ScanHitGaps(words: seq<string>, s: string, pos: nat, k: nat)
    requires NonEmptyWords(words)
    requires pos < |s| && FirstWordFrom(words, s, pos, 0) == Some(k)
    requires GapsClear(words, s, pos + |words[k]|, Scan(words, s, pos + |words[k]|))
    ensures GapsClear(words, s, pos, Scan(words, s, pos))
  {
    ScanAtHit(words, s, pos, k);
    GapsClearCons(words, s, Hit(pos, k), Scan(words, s, pos + |words[k]|));
  }

  /** One step of the scan at a position where an alternative matches. */
  lemma ScanAtHit(words: seq<string>, s: string, pos: nat, k: nat)
    requires NonEmptyWords(words)
    requires pos < |s| && FirstWordFrom(words, s, pos, 0) == Some(k)
    ensures Scan(words, s, pos) == [Hit(pos, k)] + Scan(words, s, pos + |words[k]|)
  {
    var first := FirstWordFrom(words, s, pos, 0);
    assert first.value == k;
  }

  /** A hit right at `lo` leaves an empty gap in front of it. */
  lemma GapsClearCons(words: seq<string>, s: string, h: Hit, rest: seq<Hit>)
    requires h.word < |words| && GapsClear(words, s, HitEnd(words, h), rest)
    ensures GapsClear(words, s, h.start, [h] + rest)
  {
    assert ([h] + rest)[1..] == rest;
  }

  /** A position where nothing matches widens the first gap by one. */
  lemma GapsClearExtend(words: seq<string>, s: string, lo: int, hits: seq<Hit>)
    requires GapsClear(words, s, lo + 1, hits)
    requires forall k :: 0 <= k < |words| ==> !MatchesAt(s, lo, words[k])
    ensures GapsClear(words, s, lo, hits)
  {
  }

  /** The gaps of `GapsClear`, hit by hit. */
  lemma {:induction false} GapsClearEach(words: seq<string>, s: string, lo: int, hits: seq<Hit>)
    requires GapsClear(words, s, lo, hits)
    ensures forall j :: 0 <= j < |hits| ==> hits[j].word < |words|
    ensures NoMatchIn(words, s, lo, if hits == [] then |s| else hits[0].start)
    ensures forall j1, j2 :: 0 <= j1 < j2 < |hits| && j2 == j1 + 1 ==>
              NoMatchIn(words, s, HitEnd(words, hits[j1]), hits[j2].start)
    ensures hits != [] ==> NoMatchIn(words, s, HitEnd(words, hits[|hits| - 1]), |s|)
    decreases |hits|
  {
    if hits != [] {
      var rest := hits[1..];
      GapsClearEach(words, s, HitEnd(words, hits[0]), rest);
      forall j1, j2 | 0 <= j1 < j2 < |hits| && j2 == j1 + 1
        ensures NoMatchIn(words, s, HitEnd(words, hits[j1]), hits[j2].start)
      {
        if j1 > 0 {
          assert hits[j1] == rest[j1 - 1] && hits[j2] == rest[j2 - 1];
        }
      }
    }
  }

  /**
   * No match is skipped: nothing matches before the first hit, between two
   * consecutive hits, or after the last one (anywhere from `pos`, with no hit).
   */
  lemma ScanComplete(words: seq<string>, s: string, pos: nat)
    requires NonEmptyWords(words)
    ensures var hits := Scan(words, s, pos);
            && NoMatchIn(words, s, pos, if hits == [] then |s| else hits[0].start)
            && (forall j1, j2 :: 0 <= j1 < j2 < |hits| && j2 == j1 + 1 ==>
                  NoMatchIn(words, s, HitEnd(words, hits[j1]), hits[j2].start))
            && (hits != [] ==> NoMatchIn(words, s, HitEnd(words, hits[|hits| - 1]), |s|))
  {
    ScanGapsClear(words, s, pos);
    GapsClearEach(words, s, pos, Scan(words, s, pos));
  }

  /** The scan from the start finds something exactly when some configured word occurs as a whole word. */
  lemma ScanFindsOccurrence(words: seq<string>, s: string)
    requires NonEmptyWords(words)
    ensures Scan(words, s, 0) != [] <==> Occurs(words, s)
  {
    var hits := Scan(words, s, 0);
    if hits != [] {
      assert MatchesAt(s, hits[0].start, words[hits[0].word]);
    } else {
      ScanComplete(words, s, 0);
    }
  }

  /** A reported match has a boundary on both sides and equals a configured word ignoring case. */
  lemma MatchesAreWords(words: seq<string>, s: string, m: string)
    requires NonEmptyWords(words)
    requires m in Matches(words, s)
    ensures exists k :: 0 <= k < |words| && EqualsIgnoreCase(m, words[k])
    ensures exists i :: 0 <= i <= |s| - |m| && m == s[i..i + |m|] && IsBoundary(s, i) && IsBoundary(s, i + |m|)
  {
    MatchesAreOccurrences(words, s, m);
    var i, k :| 0 <= i < |s| && 0 <= k < |words| && MatchesAt(s, i, words[k]) && m == s[i..i + |words[k]|];
    assert |m| == |words[k]|;
  }

  /** An empty word list builds no pattern, so nothing ever matches. */
  lemma NoWordsNoMatch(s: string)
    ensures !Occurs([], s)
    ensures Matches([], s) == {}
  {
  }

  /** A match starts with the word's first letter, up to case. */
  lemma MatchStartsWithFirstLetter(s: string, i: int, w: string)
    requires MatchesAt(s, i, w) && w != []
    ensures LowerChar(s[i]) == LowerChar(w[0])
  {
    assert ToLower(s[i..i + |w|])[0] == ToLower(w)[0];
  }

  /** Where "the wifi is down" has a `w` or a `c`, up to case, with room for four more characters. */
  lemma WifiLetters(s: string)
    requires s == "the wifi is down"
    ensures forall i :: 0 <= i <= 12 && (LowerChar(s[i]) == 'w' || LowerChar(s[i]) == 'c') ==> i == 4
  {
    forall i | 0 <= i <= 12 && (LowerChar(s[i]) == 'w' || LowerChar(s[i]) == 'c')
      ensures i == 4
    {
      assert i == 0 || i == 1 || i == 2 || i == 3 || i == 4 || i == 5 || i == 6 || i == 7 || i == 8
          || i == 9 || i == 10 || i == 11 || i == 12;
    }
  }

  /** In "the wifi is down", of the words "wifi" and "computer", the only whole-word occurrence is "wifi" at position 4. */
  lemma WifiOnlyAt(words: seq<string>, s: string)
    requires words == ["wifi", "computer"] && s == "the wifi is down"
    ensures MatchesAt(s, 4, words[0]) && s[4..4 + |words[0]|] == "wifi"
    ensures forall i, k :: 0 <= i < |s| && 0 <= k < |words| && MatchesAt(s, i, words[k]) ==> i == 4 && k == 0
  {
    assert s[4..8] == "wifi";
    WifiLetters(s);
    forall i, k | 0 <= i < |s| && 0 <= k < |words| && MatchesAt(s, i, words[k])
      ensures i == 4 && k == 0
    {
      MatchStartsWithFirstLetter(s, i, words[k]);
      assert LowerChar(words[k][0]) == if k == 0 then 'w' else 'c';
    }
  }

  /** Every span found in a message is the text of one whole-word occurrence. */
  lemma MatchesAreOccurrences(words: seq<string>, s: string, m: string)
    requires NonEmptyWords(words)
    requires m in Matches(words, s)
    ensures exists i, k :: 0 <= i < |s| && 0 <= k < |words| && MatchesAt(s, i, words[k]) && m == s[i..i + |words[k]|]
  {
    var j :| 0 <= j < |FindAll(words, s)| && FindAll(words, s)[j] == m;
  }

  /** A message with exactly one whole-word occurrence yields exactly that one span. */
  lemma MatchesSingle(words: seq<string>, s: string, i0: int, k0: int)
    requires NonEmptyWords(words)
    requires 0 <= k0 < |words| && MatchesAt(s, i0, words[k0])
    requires forall i, k {:trigger MatchesAt(s, i, words[k])} :: 0 <= i < |s| && 0 <= k < |words| && MatchesAt(s, i, words[k]) ==> i == i0 && k == k0
    ensures Matches(words, s) == {s[i0..i0 + |words[k0]|]}
  {
    var found := Matches(words, s);
    forall m | m in found
      ensures m == s[i0..i0 + |words[k0]|]
    {
      MatchesAreOccurrences(words, s, m);
    }
    assert Occurs(words, s);
    var m :| m in found;
  }

  /** In "the wifi is down", of the words "wifi" and "computer" only "wifi" is found. */
  lemma WifiExample(words: seq<string>, s: string)
    requires words == ["wifi", "computer"] && s == "the wifi is down"
    ensures Occurs(words, s)
    ensures Matches(words, s) == {"wifi"}
  {
    WifiOnlyAt(words, s);
    MatchesSingle(words, s, 4, 0);
  }
}
