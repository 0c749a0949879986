/**
 * Batch scoring (`credit_score_pipeline`): the weighted feature columns are
 * min-max scaled, combined by a dot product with the signed weights, scaled
 * again to [0, 1000], truncated to integers, and the wallets are ordered by
 * score, highest first.
 */
module Scoring {
  import opened Features
  import opened MinMax
  import opened Ranking

  /** The columns selected by `features[list(weights)]`, in the weights' order. */
  datatype Column =
    | WalletAge
    | TransactionCount
    | AverageGap
    | LiquidationCount
    | Health
    | Repay
    | UniqueAssets

  const COLUMNS: seq<Column> :=
    [WalletAge, TransactionCount, AverageGap, LiquidationCount, Health, Repay, UniqueAssets]

  /** The signed weight of each column, in the order of `COLUMNS`. */
  const WEIGHTS: seq<real> := [0.10, 0.05, 0.05, -0.40, 0.20, 0.15, 0.05]

  const HEALTH_INDEX: nat := 4
  const LIQUIDATION_INDEX: nat := 3

  const SCORE_MAX: real := 1000.0

  /** The value of column `c` in a feature row. */
  function Value(row: FeatureRow, c: Column): real {
    match c
    case WalletAge => row.walletAgeDays as real
    case TransactionCount => row.transactionCount as real
    case AverageGap => row.avgTimeBetweenTxsHours
    case LiquidationCount => row.liquidationCount as real
    case Health => row.healthRatio
    case Repay => row.repayToBorrowRatio
    case UniqueAssets => row.uniqueAssetsUsed as real
  }

  /** Column `c` of the feature table. */
  function ColumnOf(features: seq<FeatureRow>, c: Column): (col: seq<real>)
    ensures |col| == |features|
  {
    seq(|features|, i requires 0 <= i < |features| => Value(features[i], c))
  }

  /**
   * Column `k` of `score_df` before scaling: the health ratio column is
   * clipped to its own maximum, the others are as selected.
   */
  function Clipped(features: seq<FeatureRow>, k: nat): (col: seq<real>)
    requires |features| > 0 && k < |COLUMNS|
    ensures |col| == |features|
  {
    var col := ColumnOf(features, COLUMNS[k]);
    if k == HEALTH_INDEX then ClipUpper(col, SeqMax(col)) else col
  }

  /** Column `k` of `score_df` after scaling: positive-weight columns are scaled to [0, 1]. */
  function Normalized(features: seq<FeatureRow>, k: nat): (col: seq<real>)
    requires |features| > 0 && k < |COLUMNS|
    ensures |col| == |features|
  {
    if WEIGHTS[k] > 0.0 then MinMaxScale(Clipped(features, k), 0.0, 1.0) else Clipped(features, k)
  }

  /** The whole of `score_df` after scaling, column by column. */
  function NormalizedFrame(features: seq<FeatureRow>): (frame: seq<seq<real>>)
    requires |features| > 0
    ensures |frame| == |COLUMNS|
  {
    seq(|COLUMNS|, k requires 0 <= k < |COLUMNS| => Normalized(features, k))
  }

  /** Row `i` of the first `n` columns of `frame` dotted with the first `n` weights. */
  function DotRow(frame: seq<seq<real>>, i: nat, n: nat): real
    requires n <= |frame| && n <= |WEIGHTS|
    requires forall k :: 0 <= k < n ==> i < |frame[k]|
  {
    if n == 0 then 0.0 else DotRow(frame, i, n - 1) + frame[n - 1][i] * WEIGHTS[n - 1]
  }

  /** `np.dot(score_df.values, weights)`: one raw weighted sum per wallet. */
  function RawScores(features: seq<FeatureRow>): (raw: seq<real>)
    requires |features| > 0
    ensures |raw| == |features|
  {
    var frame := NormalizedFrame(features);
    seq(|features|, i requires 0 <= i < |features| => DotRow(frame, i, |COLUMNS|))
  }

  /** `astype(int)`: truncation toward zero. */
  function Truncate(x: real): int {
    if x >= 0.0 then x.Floor else -((-x).Floor)
  }

  /** The integer credit scores, in the order of the feature rows. */
  function CreditScores(features: seq<FeatureRow>): (scores: seq<int>)
    requires |features| > 0
    ensures |scores| == |features|
  {
    var scaled := MinMaxScale(RawScores(features), 0.0, SCORE_MAX);
    seq(|features|, i requires 0 <= i < |features| => Truncate(scaled[i]))
  }

  /** `features['credit_score'] = scores` */
  function Attach(features: seq<FeatureRow>, scores: seq<int>): (s: seq<ScoredWallet>)
    requires |scores| == |features|
    ensures |s| == |features|
  {
    seq(|features|, i requires 0 <= i < |features| => ScoredWallet(features[i], scores[i]))
  }

  /** The result of `credit_score_pipeline`. */
  function Pipeline(features: seq<FeatureRow>): seq<ScoredWallet> {
    if |features| == 0 then [] else SortByScore(Attach(features, CreditScores(features)))
  }

  /**
   * `credit_score_pipeline`: select the weighted columns, clip the health
   * ratio, scale each positive-weight column in place, take the dot product,
   * scale it to [0, 1000], truncate, attach and sort.
   */
  method CreditScorePipeline(features: seq<FeatureRow>) returns (result: seq<ScoredWallet>)
    ensures result == Pipeline(features)
  {
    if |features| == 0 {
      return [];
    }
    var frame := seq(|COLUMNS|, k requires 0 <= k < |COLUMNS| => ColumnOf(features, COLUMNS[k]));
    var health := frame[HEALTH_INDEX];
    frame := frame[HEALTH_INDEX := ClipUpper(health, SeqMax(health))];
    for k := 0 to |COLUMNS|
      invariant |frame| == |COLUMNS|
      invariant forall j :: 0 <= j < k ==> frame[j] == Normalized(features, j)
      invariant forall j :: k <= j < |COLUMNS| ==> frame[j] == Clipped(features, j)
    {
      if WEIGHTS[k] > 0.0 {
        frame := frame[k := MinMaxScale(frame[k], 0.0, 1.0)];
      }
    }
    assert frame == NormalizedFrame(features);
    var raw := seq(|features|, i requires 0 <= i < |features| => DotRow(frame, i, |COLUMNS|));
    var scaled := MinMaxScale(raw, 0.0, SCORE_MAX);
    var scores := seq(|features|, i requires 0 <= i < |features| => Truncate(scaled[i]));
    result := SortByScore(Attach(features, scores));
  }

  /** Truncation keeps [0, 1000] and the order of non-negative values; 0 and 1000 are exact. */
  lemma TruncateRules(x: real, y: real)
    ensures 0.0 <= x <= SCORE_MAX ==> 0 <= Truncate(x) <= 1000
    ensures 0.0 <= x <= y ==> Truncate(x) <= Truncate(y)
    ensures Truncate(0.0) == 0 && Truncate(SCORE_MAX) == 1000
  {
  }

  /**
   * After scaling, every positive-weight column lies in [0, 1] and keeps the
   * order of the feature values; the liquidation count column, whose weight
   * is negative, is left as it was.
   */
  lemma NormalizedColumns(features: seq<FeatureRow>)
    requires |features| > 0
    ensures forall k, i :: 0 <= k < |COLUMNS| && WEIGHTS[k] > 0.0 && 0 <= i < |features| ==>
      0.0 <= Normalized(features, k)[i] <= 1.0
    ensures forall k, i, j ::
      (0 <= k < |COLUMNS| && 0 <= i < |features| && 0 <= j < |features| &&
       Value(features[i], COLUMNS[k]) <= Value(features[j], COLUMNS[k])) ==>
      Normalized(features, k)[i] <= Normalized(features, k)[j]
    ensures forall i :: 0 <= i < |features| ==>
      Normalized(features, LIQUIDATION_INDEX)[i] == features[i].liquidationCount as real
  {
    forall k | 0 <= k < |COLUMNS|
      ensures Clipped(features, k) == ColumnOf(features, COLUMNS[k])
    {
      var col := ColumnOf(features, COLUMNS[k]);
      ClipUpperRules(col, SeqMax(col));
    }
    forall k | 0 <= k < |COLUMNS| && WEIGHTS[k] > 0.0
      ensures forall i :: 0 <= i < |features| ==> 0.0 <= Normalized(features, k)[i] <= 1.0
      ensures forall i, j ::
        (0 <= i < |features| && 0 <= j < |features| &&
         Value(features[i], COLUMNS[k]) <= Value(features[j], COLUMNS[k])) ==>
        Normalized(features, k)[i] <= Normalized(features, k)[j]
    {
      ScaledBounds(Clipped(features, k), 0.0, 1.0);
      ScalePreservesOrder(Clipped(features, k), 0.0, 1.0);
    }
  }

  /** Every credit score is an integer in [0, 1000]. */
  lemma ScoresInRange(features: seq<FeatureRow>)
    requires |features| > 0
    ensures forall i :: 0 <= i < |features| ==> 0 <= CreditScores(features)[i] <= 1000
  {
    var raw := RawScores(features);
    ScaledBounds(raw, 0.0, SCORE_MAX);
    forall i | 0 <= i < |features|
      ensures 0 <= CreditScores(features)[i] <= 1000
    {
      TruncateRules(MinMaxScale(raw, 0.0, SCORE_MAX)[i], 0.0);
    }
  }

  /**
   * When the raw weighted sums are not all equal, a wallet with the smallest
   * sum scores 0 and one with the largest scores 1000; when they are all
   * equal, every wallet scores 0.
   */
  lemma ScoreExtremes(features: seq<FeatureRow>)
    requires |features| > 0
    ensures var raw := RawScores(features);
      && (forall i :: 0 <= i < |features| && raw[i] == SeqMin(raw) ==> CreditScores(features)[i] == 0)
      && (SeqMin(raw) < SeqMax(raw) ==>
            forall i :: 0 <= i < |features| && raw[i] == SeqMax(raw) ==> CreditScores(features)[i] == 1000)
      && (SeqMin(raw) == SeqMax(raw) ==> forall i :: 0 <= i < |features| ==> CreditScores(features)[i] == 0)
  {
    var raw := RawScores(features);
    ScaledExtremes(raw, 0.0, SCORE_MAX);
    TruncateRules(0.0, 0.0);
  }

  /** Both extreme scores occur when the raw weighted sums are not all equal. */
  lemma ExtremeScoresOccur(features: seq<FeatureRow>)
    requires |features| > 0
    requires SeqMin(RawScores(features)) < SeqMax(RawScores(features))
    ensures exists i :: 0 <= i < |features| && CreditScores(features)[i] == 0
    ensures exists j :: 0 <= j < |features| && CreditScores(features)[j] == 1000
  {
    var raw := RawScores(features);
    ExtremesAttained(raw);
    ScoreExtremes(features);
    var i :| 0 <= i < |raw| && raw[i] == SeqMin(raw);
    var j :| 0 <= j < |raw| && raw[j] == SeqMax(raw);
    assert CreditScores(features)[i] == 0;
    assert CreditScores(features)[j] == 1000;
  }

  /** A wallet with a higher raw weighted sum never gets a lower score. */
  lemma ScoresFollowRawSums(features: seq<FeatureRow>)
    requires |features| > 0
    ensures forall i, j ::
      (0 <= i < |features| && 0 <= j < |features| &&
       RawScores(features)[i] <= RawScores(features)[j]) ==>
      CreditScores(features)[i] <= CreditScores(features)[j]
  {
    var raw := RawScores(features);
    var scaled := MinMaxScale(raw, 0.0, SCORE_MAX);
    ScaledBounds(raw, 0.0, SCORE_MAX);
    ScalePreservesOrder(raw, 0.0, SCORE_MAX);
    forall i, j | 0 <= i < |features| && 0 <= j < |features| && raw[i] <= raw[j]
      ensures CreditScores(features)[i] <= CreditScores(features)[j]
    {
      TruncateRules(scaled[i], scaled[j]);
    }
  }

  /**
   * An empty feature table gives an empty result; otherwise the result is a
   * permutation of the scored wallets, ordered by score, highest first, with
   * every score in [0, 1000].
   */
  lemma PipelineRanksWallets(features: seq<FeatureRow>)
    ensures |features| == 0 ==> Pipeline(features) == []
    ensures |features| > 0 ==>
      multiset(Pipeline(features)) == multiset(Attach(features, CreditScores(features)))
    ensures SortedDescending(Pipeline(features))
    ensures forall r :: r in Pipeline(features) ==> 0 <= r.creditScore <= 1000
    ensures forall r :: r in Pipeline(features) ==> r.features in features
  {
    if |features| > 0 {
      var scored := Attach(features, CreditScores(features));
      SortByScoreCorrect(scored);
      ScoresInRange(features);
      forall r | r in Pipeline(features)
        ensures 0 <= r.creditScore <= 1000 && r.features in features
      {
        assert r in multiset(scored);
        var i :| 0 <= i < |scored| && scored[i] == r;
      }
    }
  }
}
