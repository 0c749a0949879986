# Credit scorer model

This project models the computational core of `credit_scorer.py`. That script turns a list of lending-protocol transaction records into one integer credit score per wallet, in three stages:

1. **Record derivation** (`parse_json_data`, after the JSON has been loaded and flattened):
   - the six numeric columns are coerced with `pd.to_numeric(errors='coerce')`;
   - NaN is filled with 0;
   - `amountUSD`, `principalAmountUSD` and `collateralAmountUSD` are each a raw amount times its unit price.

   Modules `Records` and `Decimal` model this stage. `Decimal` is the subset of numeric text that `to_numeric` accepts here: an optional sign, then digits with an optional decimal point.
2. **Per-wallet aggregation** (`build_features`): for each distinct wallet id, in order of first appearance, the wallet's records are reduced to one feature row. The row holds:
   - the age in whole days;
   - the record count;
   - the average gap;
   - the liquidation count and USD total;
   - the deposit and borrow totals;
   - the health and repay ratios;
   - the number of distinct assets.

   Module `Features` models this stage. `Features.BuildFeatures` is the loop itself, and it is proved equal to the table function `Features.FeatureTable`.
3. **Batch scoring** (`credit_score_pipeline`):
   - the seven weighted columns are selected;
   - the health ratio is clipped to its own maximum;
   - every positive-weight column is min-max scaled to [0, 1] in place;
   - the dot product with the signed weights is min-max scaled to [0, 1000] and truncated to an integer;
   - the wallets are sorted by score, highest first.

   Modules `MinMax` (the scaler's arithmetic), `Ranking` (the descending sort) and `Scoring` (the pipeline) model this stage. `Scoring.CreditScorePipeline` is the method with the column loop, and it is proved equal to `Scoring.Pipeline`.

Numeric values, floating-point or integer, are modelled as exact `real`s (see "## Left out" for what that drops). Timestamps are integer epoch seconds. A numeric cell of a raw record is absent (a key missing from the record's map), null, a number or a piece of text.

## Model

| member | source | states |
|---|---|---|
| Records.Normalize | credit_scorer.py:43-55 | each of the six numeric fields is its column's coerced value (0 when missing or not a number), and each USD value is its raw amount times its unit price; identifying fields are kept |
| Records.ParseRecords | credit_scorer.py:43-55 | the column-by-column coercion, the NaN fill and the USD columns yield, for every row, exactly the record `Normalize` describes, with one output per input row |
| Records.CoerceColumns | credit_scorer.py:48-49 | the coercion loop produces every one of the six numeric columns, each holding exactly the coerced cells of that column, row by row |
| Records.MissingOrNonNumericIsZero | credit_scorer.py:48-50 | a cell that is absent, null or text that is not a number is coerced to 0 |
| Records.NumericCellKept | credit_scorer.py:48-50 | a number keeps its value, and text the parser reads as a number is coerced to that number |
| Records.DecimalTextCell | credit_scorer.py:48-50 | a text cell holding a decimal written as whole digits, a point and n fraction digits is coerced to the whole part plus the fraction digits' value over 10^n |
| Records.UnpricedAmountIsZeroUsd | credit_scorer.py:48-53 | a record whose amount or price is missing or non-numeric is worth 0 USD |
| Records.NonNegativeUsd | credit_scorer.py:50-55 | when every present numeric cell is non-negative, all three USD values are non-negative |
| Decimal.ParseShowNat | credit_scorer.py:49 | an integer written in decimal digits reads back as that number |
| Decimal.ParseNegatedShowNat | credit_scorer.py:49 | a negative integer written in decimal reads back as that number |
| Decimal.ForeignCharacterRejected | credit_scorer.py:49 | in the model, text containing a character that is neither a digit, a point nor a sign is not a number (NaN) |
| Decimal.FractionBelowOne | credit_scorer.py:49 | the digits after a decimal point are worth at least 0 and less than 1 |
| Decimal.ParseDecimal | credit_scorer.py:49 | whole digits spelling a, a point and n digits spelling b < 10^n read back as a + b/10^n |
| Decimal.ParseNegatedDecimal | credit_scorer.py:49 | the same text after a '-' reads back as -(a + b/10^n) |
| Decimal.MinusParsed | credit_scorer.py:49 | a leading '-' negates whatever number the rest of the text spells |
| Decimal.QuarterParsed | credit_scorer.py:49 | the price text "0.25" reads as 0.25 |
| Decimal.SeparatorRejected | credit_scorer.py:49 | text with a thousands separator, "1,000", is not a number |
| Features.BuildFeatures | credit_scorer.py:60-108 | the wallet loop, with its filter, empty-skip and append, produces exactly the feature table |
| Features.OneRowPerWallet | credit_scorer.py:65-72 | the table has one row per distinct wallet id: ids are distinct, every record's wallet has a row, every row's wallet has records, and each row's transaction count is that wallet's record count, hence at least 1 |
| Features.TableWallets | credit_scorer.py:65-72 | row i belongs to the i-th wallet id that `Wallets` lists, counts that wallet's records, and is exactly the per-wallet row built from them, so every per-wallet lemma applies to the table's rows |
| Features.WalletsHaveRecords | credit_scorer.py:65-68 | in the model, every listed wallet has records, so the `txs.empty` guard never skips one (in the source, records without a wallet id are dropped by this guard) |
| Features.WalletsAreUsed | credit_scorer.py:65 | every listed wallet id is the id of some record |
| Features.ColumnTotals | credit_scorer.py:65-86 | summed over all rows, the transaction counts give the number of records; the liquidation counts, liquidated USD, deposited USD and borrowed USD give the same totals taken over all records, so each record is counted in exactly one row |
| Features.Partition | credit_scorer.py:65-66 | splitting the records by wallet over a duplicate-free wallet list that covers every record loses and duplicates nothing |
| Features.AgeAndAverageGap | credit_scorer.py:71-73 | the age is the number of whole days in the span from the earliest to the latest timestamp; with more than one record the average gap is age×24 over the count |
| Features.SingleTransactionWallet | credit_scorer.py:71-73 | a wallet with one record has age 0 and average gap 0 |
| Features.TimestampBoundsAttained | credit_scorer.py:71 | the minimum and the maximum used for the age are timestamps of the wallet's records |
| Features.RowBounds | credit_scorer.py:71-91 | age and average gap are non-negative; the liquidation and distinct-asset counts lie between 0 and the record count |
| Features.OfKindMembers | credit_scorer.py:76-83 | the type filter keeps exactly the records of that type |
| Features.KindFilter | credit_scorer.py:76-86 | the per-type count and sums equal `len` and `sum` taken over the filtered records |
| Features.RowKindTotals | credit_scorer.py:76-86 | a row's liquidation count and liquidated USD come from liquidation records only; its deposit and borrow totals sum `amountUSD` over records of their own type only |
| Features.HealthRatioRules | credit_scorer.py:89 | with nothing borrowed the health ratio is the deposits; otherwise it times the borrowed total gives the deposits; non-negative totals give a non-negative ratio |
| Features.RepayRatioRules | credit_scorer.py:90 | the repay ratio never exceeds 1; it is 1 with nothing borrowed or when at least the borrowed total was repaid, and otherwise the repaid fraction of the borrowed total |
| Features.RatioRules | credit_scorer.py:89-90 | a row's health and repay ratios follow the divide-by-zero fallbacks exactly, and the repay ratio is at most 1 |
| Features.RatiosOfNonNegativeAmounts | credit_scorer.py:84-90 | with non-negative USD amounts, the health ratio is non-negative and the repay ratio lies in [0, 1] |
| Features.AssetSymbolsBound | credit_scorer.py:91 | a wallet has no more distinct asset symbols than records |
| MinMax.ExtremesAttained | credit_scorer.py:136 | the column minimum and maximum used by the scaler are values of the column |
| MinMax.ScaledBounds | credit_scorer.py:133-136 | every scaled value lies in the target range |
| MinMax.ScalePreservesOrder | credit_scorer.py:133-136 | scaling never reverses the order of two values, and keeps distinct values distinct when the target range is proper |
| MinMax.ScaledExtremes | credit_scorer.py:136 | the column minimum maps to the lower end and, when the column has a range, the maximum to the upper end; a column without range maps entirely to the lower end |
| MinMax.ClipUpperRules | credit_scorer.py:130 | clipped values never exceed the bound, values at or below it are unchanged, and clipping a column to its own maximum changes nothing |
| Scoring.CreditScorePipeline | credit_scorer.py:110-143 | the method (empty check, column selection, health clip, in-place scaling loop, dot product, rescale, truncation, sort) returns exactly `Pipeline` |
| Scoring.NormalizedColumns | credit_scorer.py:128-136 | after scaling, every positive-weight column lies in [0, 1], every column keeps the order of the feature values, and the liquidation count column is left unscaled |
| Scoring.TruncateRules | credit_scorer.py:142 | truncation keeps [0, 1000] and the order of non-negative values, and maps 0 and 1000 to themselves |
| Scoring.ScoresInRange | credit_scorer.py:139-142 | every credit score is an integer in [0, 1000] |
| Scoring.ScoreExtremes | credit_scorer.py:139-142 | when the raw weighted sums differ, a wallet with the smallest sum scores 0 and one with the largest scores 1000; when they are all equal, every wallet scores 0 |
| Scoring.ExtremeScoresOccur | credit_scorer.py:139-142 | when the raw weighted sums differ, both 0 and 1000 occur as scores |
| Scoring.ScoresFollowRawSums | credit_scorer.py:139-142 | a wallet with a higher raw weighted sum never gets a lower score |
| Scoring.PipelineRanksWallets | credit_scorer.py:113-143 | an empty feature table gives an empty result; otherwise the result is a permutation of the scored rows, sorted by score non-increasing, with every score in [0, 1000] and every row taken from the input |
| Ranking.InsertSorted | credit_scorer.py:143 | inserting into a descending sequence keeps it descending |
| Ranking.InsertPermutes | credit_scorer.py:143 | insertion adds the new row and loses nothing |
| Ranking.SortByScoreCorrect | credit_scorer.py:143 | the sort output is a permutation of its input, and its scores never increase |
| Ranking.SortByScoreLength | credit_scorer.py:143 | sorting keeps the number of rows |

## Left out

- JSON loading, `json_normalize` flattening and the column rename table (credit_scorer.py:11-36): records are taken as already flattened and keyed by their canonical column names.
- `pd.to_datetime` (line 40): timestamps are integer epoch seconds, and the age is (latest − earliest) div 86400. `Timedelta.days` floors the same way for the non-negative spans that occur.
- Records without a wallet id or a timestamp: the model assumes every record has both. In the source, a record without `userWallet` gets a NaN wallet id; `unique()` lists NaN, but the `== wallet` filter matches nothing for it, so the `txs.empty` guard (lines 67-68) silently drops such records. A missing `asset_symbol` cell (NaN for an absent key, `None` for a JSON null) is not counted by `nunique`.
- Decimal.ForeignCharacterRejected: exponent forms ("1e5", "5e-07"), whitespace-padded text (" 5") and `inf` text are NaN in the model, and so become 0 after the fill, whereas `pd.to_numeric` reads them as numbers. (`nan` text is NaN in both, so it becomes 0 in both.) Boolean cells are not modelled.
- Records.Normalize: when every cell of a numeric column is integer text or a JSON integer, `pd.to_numeric` (line 49) gives an int64 column, not a float64 one. The USD products at lines 53-55 of two such columns, and the `.sum()` totals at lines 78 and 84-86 over them, are then int64 arithmetic that silently wraps past 2^63. For example, amount "5000000000000000000" and price "2" in every record give amountUSD 10^19 − 2^64 in the source, but 10^19 in the model, which multiplies and sums exact reals. Records.NonNegativeUsd, Features.ColumnTotals and Features.RatiosOfNonNegativeAmounts therefore hold in the source only for float columns or values that do not overflow.
- IEEE float behaviour (NaN, ±inf, rounding, summation order): values are exact `real`s. So the ±inf replacement at line 129 cannot trigger and is not modelled, and a scaled maximum of exactly 1000 truncates to 1000.
- The per-wallet `sort_values('timestamp')` at line 66: only the minimum and maximum timestamps are used, so the order does not affect any feature. The model keeps the records' original order.
- The order among wallets with equal scores (line 143): pandas' default sort is not stable, so the model promises only a descending permutation. Its insertion sort fixes one such order.
- Printing, the warnings filter, `plot_scores`, CSV output and the command-line block (lines 9, 57, 62, 107, 112, 114, 145-179): I/O and rendering.
- Features.RowBounds: `unique_assets_used` is only bounded below by 0, not 1, because `nunique` skips missing symbols. A wallet whose records all lack a symbol therefore has 0 assets.
- Features.RatiosOfNonNegativeAmounts: the ratios are non-negative only when the USD amounts are. The code does not clamp negative amounts or prices, so negative inputs give negative totals and ratios.
- Scoring.ScoreExtremes: scikit-learn treats a range smaller than about 10 times machine epsilon as zero. Raw weighted sums that differ by less than that all score 0 in the source, whereas the model, on exact reals, gives the extremes 0 and 1000. Likewise, the source computes the rescale `X*scale_ + min_` in floating point, which can put the batch maximum at 999.9999999999999 (raw sums -0.4 and 0.7 do this), and `astype(int)` then truncates it to 999; the maximum scores exactly 1000 only on exact reals.
- Line 142 adds the `credit_score` column to the caller's `features` frame in place; the model is pure, and `Scoring.Attach` returns new rows instead.
- MinMax.MinMaxScale: requires a non-empty column, as scikit-learn rejects an empty one. The pipeline returns before scaling when the feature table is empty, so every call meets this.
