/**
 * Retrieval: every stored fact is scored against the user's input, the
 * scored facts are sorted by descending score (a stable sort) and the best
 * three are kept.
 *
 * Scores are integer hundredths: the source's
 * `round(min(0.99, 0.45 + 0.15 * overlap + uniform(0, 0.1)), 2)` becomes
 * `min(99, 45 + 15 * overlap + j)` with the random draw injected as a
 * jitter `j` in [0, 10], one draw per fact, in store order.
 */
module Retrieval {
  import opened Text

  datatype Scored = Scored(fact: string, score: int)

  // ---------------------------------------------------------------------
  // Overlap between a fact and the input.

  /** The fact with every "，" and "。" replaced by a space. */
  function Separated(fact: string): string {
    seq(|fact|, k requires 0 <= k < |fact| =>
      if fact[k] == '，' || fact[k] == '。' then ' ' else fact[k])
  }

  /** The set of white-space-delimited tokens of the separated fact. */
  function Keywords(fact: string): set<string> {
    set t | t in Split(Separated(fact))
  }

  /** `set(user_input)`: the input's characters, each as a one-character string. */
  function InputWords(input: string): set<string> {
    set c | c in input :: [c]
  }

  /**
   * `len(keywords & input_words)`: the number of distinct one-character
   * fact tokens whose character occurs in the input.
   */
  function Overlap(fact: string, input: string): (n: nat)
    ensures n == |set t | t in Split(Separated(fact)) && |t| == 1 && t[0] in input|
  {
    var hits := set t | t in Split(Separated(fact)) && |t| == 1 && t[0] in input;
    forall t ensures t in Keywords(fact) * InputWords(input) <==> t in hits {
      OverlapIsSingleCharTokens(fact, input, t);
    }
    assert Keywords(fact) * InputWords(input) == hits;
    |Keywords(fact) * InputWords(input)|
  }

  /**
   * What the overlap actually counts: the fact tokens that are exactly one
   * character long and whose character occurs in the input. Longer tokens
   * never match a single input character.
   */
  lemma OverlapIsSingleCharTokens(fact: string, input: string, t: string)
    ensures t in Keywords(fact) * InputWords(input)
        <==> t in Split(Separated(fact)) && |t| == 1 && t[0] in input
  {
    if |t| == 1 && t[0] in input {
      assert t == [t[0]];
    }
  }

  /**
   * A fact that is one run of text, with no white space and neither "，"
   * nor "。", and at least two characters long never overlaps any input.
   */
  lemma UnbrokenFactHasNoOverlap(fact: string, input: string)
    requires |fact| >= 2
    requires forall k :: 0 <= k < |fact| ==> !IsSpace(fact[k]) && fact[k] != '，' && fact[k] != '。'
    ensures Overlap(fact, input) == 0
  {
    var s := Separated(fact);
    assert s == fact;
    SplitWord(s);
    forall t | t in Keywords(fact) * InputWords(input) ensures false {
      OverlapIsSingleCharTokens(fact, input, t);
    }
    assert Keywords(fact) * InputWords(input) == {};
  }

  // ---------------------------------------------------------------------
  // Scores.

  predicate ValidJitter(j: int) {
    0 <= j <= 10
  }

  /** The score of a fact with the given overlap, in hundredths. */
  function Score(overlap: nat, jitter: int): (h: int)
    requires ValidJitter(jitter)
    ensures 45 <= h <= 99
    ensures overlap == 0 ==> h <= 55
    ensures overlap > 0 ==> h >= 60
  {
    var raw := 45 + 15 * overlap + jitter;
    if raw < 99 then raw else 99
  }

  /** A higher overlap never scores lower under the same jitter. */
  lemma ScoreMonotone(o1: nat, o2: nat, jitter: int)
    requires ValidJitter(jitter) && o1 <= o2
    ensures Score(o1, jitter) <= Score(o2, jitter)
  {
  }

  predicate ValidJitters(facts: seq<string>, jitter: seq<int>) {
    |jitter| == |facts| && forall k :: 0 <= k < |jitter| ==> ValidJitter(jitter[k])
  }

  function ScoreOf(fact: string, input: string, jitter: int): Scored
    requires ValidJitter(jitter)
  {
    Scored(fact, Score(Overlap(fact, input), jitter))
  }

  /** Every fact scored, in store order. */
  function ScoreAll(facts: seq<string>, input: string, jitter: seq<int>): (r: seq<Scored>)
    requires ValidJitters(facts, jitter)
    ensures |r| == |facts|
    ensures forall k :: 0 <= k < |r| ==> r[k].fact == facts[k] && 45 <= r[k].score <= 99
    ensures forall k :: 0 <= k < |r| && Overlap(facts[k], input) == 0 ==> r[k].score <= 55
  {
    seq(|facts|, k requires 0 <= k < |facts| => ScoreOf(facts[k], input, jitter[k]))
  }

  // ---------------------------------------------------------------------
  // `sorted(..., key=score, reverse=True)`: a stable sort by descending score.

  predicate SortedDesc(s: seq<Scored>) {
    forall i, j :: 0 <= i < j < |s| ==> s[i].score >= s[j].score
  }

  /** Puts x after every element that scores strictly higher, before the rest. */
  function Insert(x: Scored, s: seq<Scored>): (r: seq<Scored>)
    ensures multiset(r) == multiset(s) + multiset{x}
  {
    if s == [] || s[0].score <= x.score then
      [x] + s
    else
      assert s == [s[0]] + s[1..];
      [s[0]] + Insert(x, s[1..])
  }

  /** Putting an element in front of a sorted sequence whose head it does not score below keeps it sorted. */
  lemma ConsSorted(e: Scored, s: seq<Scored>)
    requires SortedDesc(s) && (s == [] || s[0].score <= e.score)
    ensures SortedDesc([e] + s)
  {
    forall i, j | 0 <= i < j < |[e] + s| ensures ([e] + s)[i].score >= ([e] + s)[j].score {
      if i == 0 {
        assert ([e] + s)[j] == s[j - 1];
      } else {
        assert ([e] + s)[i] == s[i - 1] && ([e] + s)[j] == s[j - 1];
      }
    }
  }

  /** Inserting into a sorted sequence keeps it sorted. */
  lemma {:induction false} InsertSorted(x: Scored, s: seq<Scored>)
    requires SortedDesc(s)
    ensures SortedDesc(Insert(x, s))
    decreases |s|
  {
    if s == [] || s[0].score <= x.score {
      ConsSorted(x, s);
    } else {
      var rest := Insert(x, s[1..]);
      InsertSorted(x, s[1..]);
      assert rest[0] == x || rest[0] == s[1];
      ConsSorted(s[0], rest);
      assert Insert(x, s) == [s[0]] + rest;
    }
  }

  function SortDesc(s: seq<Scored>): (r: seq<Scored>)
    ensures multiset(r) == multiset(s)
    ensures SortedDesc(r)
  {
    if s == [] then []
    else
      assert s == [s[0]] + s[1..];
      InsertSorted(s[0], SortDesc(s[1..]));
      Insert(s[0], SortDesc(s[1..]))
  }

  /** The elements of s with score v, in the order s has them. */
  function WithScore(s: seq<Scored>, v: int): seq<Scored> {
    if s == [] then []
    else (if s[0].score == v then [s[0]] else []) + WithScore(s[1..], v)
  }

  /** The one-element contribution of e to WithScore. */
  function Picked(e: Scored, v: int): seq<Scored> {
    if e.score == v then [e] else []
  }

  lemma WithScoreCons(e: Scored, s: seq<Scored>, v: int)
    ensures WithScore([e] + s, v) == Picked(e, v) + WithScore(s, v)
  {
    assert ([e] + s)[1..] == s;
  }

  /** Inserting x puts it where a stable sort would: after the higher scores, first among its equals. */
  lemma {:induction false} InsertStable(x: Scored, s: seq<Scored>, v: int)
    ensures WithScore(Insert(x, s), v) == WithScore([x] + s, v)
    decreases |s|
  {
    if s == [] || s[0].score <= x.score {
    } else {
      var p0, px, w := Picked(s[0], v), Picked(x, v), WithScore(s[1..], v);
      assert WithScore(Insert(x, s), v) == p0 + (px + w) by {
        var rest := Insert(x, s[1..]);
        assert Insert(x, s) == [s[0]] + rest;
        WithScoreCons(s[0], rest, v);
        InsertStable(x, s[1..], v);
        WithScoreCons(x, s[1..], v);
      }
      assert WithScore([x] + s, v) == px + (p0 + w) by {
        WithScoreCons(x, s, v);
        assert s == [s[0]] + s[1..];
        WithScoreCons(s[0], s[1..], v);
      }
      PickedCommute(s[0], x, v, w);
    }
  }

  /** Two elements of different scores never both land in one score class, so their order there is moot. */
  lemma PickedCommute(a: Scored, b: Scored, v: int, w: seq<Scored>)
    requires a.score != b.score
    ensures Picked(a, v) + (Picked(b, v) + w) == Picked(b, v) + (Picked(a, v) + w)
  {
    if a.score == v {
      assert Picked(b, v) == [];
    } else {
      assert Picked(a, v) == [];
      assert Picked(a, v) + w == w;
    }
  }

  /** Sorting keeps, for every score, the elements with that score in their original order. */
  lemma {:induction false} SortStable(s: seq<Scored>, v: int)
    ensures WithScore(SortDesc(s), v) == WithScore(s, v)
    decreases |s|
  {
    if s != [] {
      var t := SortDesc(s[1..]);
      InsertStable(s[0], t, v);
      assert ([s[0]] + t)[1..] == t;
      SortStable(s[1..], v);
    }
  }

  /** A prefix keeps a prefix of each score class. */
  lemma {:induction false} WithScorePrefix(s: seq<Scored>, n: nat, v: int)
    requires n <= |s|
    ensures WithScore(s[..n], v) <= WithScore(s, v)
    decreases n
  {
    if n > 0 {
      assert s[..n][1..] == s[1..][..n - 1];
      WithScorePrefix(s[1..], n - 1, v);
    }
  }

  // ---------------------------------------------------------------------
  // The retrieval result.

  function Min(a: int, b: int): int {
    if a <= b then a else b
  }

  /** The first three elements, or all of them when there are fewer. */
  function TopThree(s: seq<Scored>): seq<Scored> {
    if |s| <= 3 then s else s[..3]
  }

  /**
   * What retrieval returns for a store and an input: empty for an empty
   * store, otherwise min(3, |facts|) facts from the store, sorted by
   * non-increasing score, each score in [0.45, 0.99].
   */
  function Retrieved(facts: seq<string>, input: string, jitter: seq<int>): (r: seq<Scored>)
    requires ValidJitters(facts, jitter)
    ensures facts == [] ==> r == []
    ensures |r| == Min(3, |facts|)
    ensures SortedDesc(r)
    ensures forall k :: 0 <= k < |r| ==> r[k].fact in facts && 45 <= r[k].score <= 99
  {
    if facts == [] then []
    else
      var all := ScoreAll(facts, input, jitter);
      var sorted := SortDesc(all);
      var r := TopThree(sorted);
      assert |sorted| == |all| by {
        assert |multiset(sorted)| == |multiset(all)|;
      }
      SortedEntriesFromStore(facts, all, sorted, |r|);
      r
  }

  /** Every entry of a rearrangement of the scored facts carries a stored fact and a score in [0.45, 0.99]. */
  lemma SortedEntriesFromStore(facts: seq<string>, all: seq<Scored>, sorted: seq<Scored>, n: int)
    requires |all| == |facts| && forall k :: 0 <= k < |all| ==> all[k].fact == facts[k] && 45 <= all[k].score <= 99
    requires multiset(sorted) == multiset(all) && 0 <= n <= |sorted|
    ensures forall k :: 0 <= k < n ==> sorted[k].fact in facts && 45 <= sorted[k].score <= 99
  {
    forall k | 0 <= k < n ensures sorted[k].fact in facts && 45 <= sorted[k].score <= 99 {
      assert sorted[k] in multiset(all);
      var i :| 0 <= i < |all| && all[i] == sorted[k];
    }
  }

  /** A non-empty result is the first min(3, n) entries of the sorted scores. */
  lemma RetrievedIsSortedPrefix(facts: seq<string>, input: string, jitter: seq<int>)
    requires ValidJitters(facts, jitter) && facts != []
    ensures |SortDesc(ScoreAll(facts, input, jitter))| == |facts|
    ensures Retrieved(facts, input, jitter) == SortDesc(ScoreAll(facts, input, jitter))[..Min(3, |facts|)]
  {
    var all := ScoreAll(facts, input, jitter);
    var sorted := SortDesc(all);
    assert |multiset(sorted)| == |multiset(all)|;
  }

  /**
   * Retrieval only selects: the result is a sub-multiset of the scored
   * facts, and with at most three facts it is all of them.
   */
  lemma RetrievalSelects(facts: seq<string>, input: string, jitter: seq<int>)
    requires ValidJitters(facts, jitter)
    ensures multiset(Retrieved(facts, input, jitter)) <= multiset(ScoreAll(facts, input, jitter))
    ensures |facts| <= 3 ==> multiset(Retrieved(facts, input, jitter)) == multiset(ScoreAll(facts, input, jitter))
  {
    if facts != [] {
      var sorted := SortDesc(ScoreAll(facts, input, jitter));
      var r := Retrieved(facts, input, jitter);
      RetrievedIsSortedPrefix(facts, input, jitter);
      assert sorted == sorted[..|r|] + sorted[|r|..];
      assert multiset(sorted) == multiset(r) + multiset(sorted[|r|..]);
      if |facts| <= 3 {
        assert r == sorted;
      }
    }
  }

  /** Retrieval keeps the best: no scored fact that was left out scores higher than one that was kept. */
  lemma RetrievalKeepsBest(facts: seq<string>, input: string, jitter: seq<int>, e: Scored, k: int)
    requires ValidJitters(facts, jitter) && facts != []
    requires 0 <= k < |Retrieved(facts, input, jitter)|
    requires e in multiset(ScoreAll(facts, input, jitter)) - multiset(Retrieved(facts, input, jitter))
    ensures e.score <= Retrieved(facts, input, jitter)[k].score
  {
    RetrievedIsSortedPrefix(facts, input, jitter);
    PrefixIsBest(SortDesc(ScoreAll(facts, input, jitter)), Min(3, |facts|), e, k);
  }

  /** In a sorted sequence, what lies beyond a prefix scores no higher than what lies in it. */
  lemma PrefixIsBest(s: seq<Scored>, n: int, e: Scored, k: int)
    requires SortedDesc(s) && 0 <= k < n <= |s|
    requires e in multiset(s) - multiset(s[..n])
    ensures multiset(s[..n]) <= multiset(s)
    ensures e.score <= s[k].score
  {
    assert s == s[..n] + s[n..];
    assert multiset(s) == multiset(s[..n]) + multiset(s[n..]);
    assert e in multiset(s[n..]);
    var i :| 0 <= i < |s[n..]| && s[n..][i] == e;
    assert s[n + i] == e;
  }

  /**
   * Ties keep store order: for every score, the retrieved facts with that
   * score are the first ones, in store order, of the facts with that score.
   */
  lemma RetrievalKeepsStoreOrder(facts: seq<string>, input: string, jitter: seq<int>, v: int)
    requires ValidJitters(facts, jitter)
    ensures WithScore(Retrieved(facts, input, jitter), v) <= WithScore(ScoreAll(facts, input, jitter), v)
  {
    if facts != [] {
      var all := ScoreAll(facts, input, jitter);
      RetrievedIsSortedPrefix(facts, input, jitter);
      WithScorePrefix(SortDesc(all), Min(3, |facts|), v);
      SortStable(all, v);
    }
  }

  /** A store holding one fact retrieves exactly that fact with its score. */
  lemma SingleFactRetrieved(fact: string, input: string, jitter: int)
    requires ValidJitter(jitter)
    ensures Retrieved([fact], input, [jitter]) == [ScoreOf(fact, input, jitter)]
  {
    var all := ScoreAll([fact], input, [jitter]);
    assert all == [ScoreOf(fact, input, jitter)];
    assert all[1..] == [];
    assert SortDesc(all) == Insert(all[0], []) == all;
  }

  /**
   * A stored sentence of two or more characters without white space, "，"
   * or "。" (say "我喜欢猫", even against the input "我喜欢猫吗") shares no
   * token with any input: alone in the store, it is retrieved with no
   * overlap bonus, at 0.45 plus the jitter.
   */
  lemma UnbrokenSentenceGetsBaseScore(fact: string, input: string, jitter: int)
    requires ValidJitter(jitter) && |fact| >= 2
    requires forall k :: 0 <= k < |fact| ==> !IsSpace(fact[k]) && fact[k] != '，' && fact[k] != '。'
    ensures Retrieved([fact], input, [jitter]) == [Scored(fact, 45 + jitter)]
  {
    SingleFactRetrieved(fact, input, jitter);
    UnbrokenFactHasNoOverlap(fact, input);
  }

  /** The scoring loop: one scored entry per fact, in store order. */
  method ScoreFacts(facts: seq<string>, input: string, jitter: seq<int>) returns (scored: seq<Scored>)
    requires ValidJitters(facts, jitter)
    ensures scored == ScoreAll(facts, input, jitter)
  {
    ghost var all := ScoreAll(facts, input, jitter);
    scored := [];
    var i := 0;
    while i < |facts|
      invariant 0 <= i <= |facts|
      invariant scored == all[..i]
    {
      assert all[..i + 1] == all[..i] + [all[i]];
      scored := scored + [ScoreOf(facts[i], input, jitter[i])];
      i := i + 1;
    }
    assert all[..|facts|] == all;
  }

  /** Scoring, stable sort and top three, as the turn runs them. */
  method Retrieve(facts: seq<string>, input: string, jitter: seq<int>) returns (retrieved: seq<Scored>)
    requires ValidJitters(facts, jitter)
    ensures retrieved == Retrieved(facts, input, jitter)
  {
    retrieved := [];
    if facts != [] {
      var scored := ScoreFacts(facts, input, jitter);
      retrieved := TopThree(SortDesc(scored));
    }
  }
}
