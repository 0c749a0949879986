/**
 * The final ordering of the pipeline: `sort_values(by='credit_score',
 * ascending=False)`. Only the order of the scores is promised; pandas'
 * default sort is not stable, so the order among equal scores is left open.
 */
module Ranking {
  import opened Features

  /** A feature row with its `credit_score` column attached. */
  datatype ScoredWallet = ScoredWallet(features: FeatureRow, creditScore: int)

  /** Scores never increase from one row to the next. */
  predicate SortedDescending(s: seq<ScoredWallet>) {
    forall i, j :: 0 <= i < j < |s| ==> s[i].creditScore >= s[j].creditScore
  }

  /** `x` placed into the descending sequence `s` before the first smaller score. */
  function Insert(x: ScoredWallet, s: seq<ScoredWallet>): (r: seq<ScoredWallet>)
    ensures |r| == |s| + 1
  {
    if s == [] then [x]
    else if s[0].creditScore <= x.creditScore then [x] + s
    else
      assert s == [s[0]] + s[1..];
      [s[0]] + Insert(x, s[1..])
  }

  /** Inserting adds `x` and loses nothing. */
  lemma {:induction false} InsertPermutes(x: ScoredWallet, s: seq<ScoredWallet>)
    ensures multiset(Insert(x, s)) == multiset(s) + multiset{x}
  {
    if s != [] && s[0].creditScore > x.creditScore {
      InsertPermutes(x, s[1..]);
      assert s == [s[0]] + s[1..];
    }
  }

  /** Inserting into a descending sequence keeps it descending. */
  lemma {:induction false} InsertSorted(x: ScoredWallet, s: seq<ScoredWallet>)
    requires SortedDescending(s)
    ensures SortedDescending(Insert(x, s))
    ensures Insert(x, s)[0] == x || (s != [] && Insert(x, s)[0] == s[0])
  {
    var r := Insert(x, s);
    if s == [] {
    } else if s[0].creditScore <= x.creditScore {
      assert r == [x] + s;
      forall i, j | 0 <= i < j < |r|
        ensures r[i].creditScore >= r[j].creditScore
      {
        assert r[j] == s[j - 1];
        if i > 0 {
          assert r[i] == s[i - 1];
        }
      }
    } else {
      var rest := Insert(x, s[1..]);
      InsertSorted(x, s[1..]);
      assert r == [s[0]] + rest;
      forall i, j | 0 <= i < j < |r|
        ensures r[i].creditScore >= r[j].creditScore
      {
        assert r[j] == rest[j - 1];
        if i > 0 {
          assert r[i] == rest[i - 1];
        } else {
          assert rest[0].creditScore >= rest[j - 1].creditScore;
        }
      }
    }
  }

  /** The rows ordered by score, highest first (insertion sort). */
  function SortByScore(s: seq<ScoredWallet>): seq<ScoredWallet> {
    if s == [] then [] else Insert(s[0], SortByScore(s[1..]))
  }

  /**
   * The sorted output holds exactly the rows of the input (a permutation)
   * and its scores never increase.
   */
  lemma {:induction false} SortByScoreCorrect(s: seq<ScoredWallet>)
    ensures multiset(SortByScore(s)) == multiset(s)
    ensures SortedDescending(SortByScore(s))
  {
    if s != [] {
      SortByScoreCorrect(s[1..]);
      InsertSorted(s[0], SortByScore(s[1..]));
      InsertPermutes(s[0], SortByScore(s[1..]));
      assert s == [s[0]] + s[1..];
    }
  }

  /** Sorting keeps the number of rows. */
  lemma SortByScoreLength(s: seq<ScoredWallet>)
    ensures |SortByScore(s)| == |s|
  {
    SortByScoreCorrect(s);
    assert |multiset(SortByScore(s))| == |multiset(s)|;
  }
}
