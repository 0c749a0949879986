/**
 * Per-wallet aggregation (`build_features`): the canonical records are
 * grouped by wallet id, in order of first appearance, and each wallet's
 * records are reduced to one feature row.
 */
module Features {
  import opened Records

  const SECONDS_PER_DAY: int := 86400
  const HOURS_PER_DAY: int := 24

  const LIQUIDATION := "liquidation"
  const DEPOSIT := "deposit"
  const BORROW := "borrow"
  const REPAY := "repay"

  /** One row of the feature table. */
  datatype FeatureRow = FeatureRow(
    walletId: string,
    walletAgeDays: int,
    transactionCount: int,
    avgTimeBetweenTxsHours: real,
    liquidationCount: int,
    totalLiquidatedUsd: real,
    totalDepositedUsd: real,
    totalBorrowedUsd: real,
    healthRatio: real,
    repayToBorrowRatio: real,
    uniqueAssetsUsed: int)

  predicate NoDuplicates(ws: seq<string>) {
    forall i, j :: 0 <= i < j < |ws| ==> ws[i] != ws[j]
  }

  /** The records of wallet `w`, in their original order (`df[df['user_id'] == wallet]`). */
  function WalletTxs(s: seq<Tx>, w: string): (r: seq<Tx>)
    ensures |r| <= |s|
    ensures forall i :: 0 <= i < |r| ==> r[i].userId == w
    ensures r == [] <==> forall i :: 0 <= i < |s| ==> s[i].userId != w
  {
    if s == [] then []
    else
      var last := s[|s| - 1];
      WalletTxs(s[..|s| - 1], w) + (if last.userId == w then [last] else [])
  }

  /**
   * The distinct wallet ids in order of first appearance (`unique()`): every
   * id occurs once and every record's id occurs.
   */
  function Wallets(s: seq<Tx>): (ws: seq<string>)
    ensures NoDuplicates(ws)
    ensures forall i :: 0 <= i < |s| ==> s[i].userId in ws
  {
    if s == [] then []
    else
      var prefix := Wallets(s[..|s| - 1]);
      var id := s[|s| - 1].userId;
      assert forall i :: 0 <= i < |s| - 1 ==> s[i] == s[..|s| - 1][i];
      if id in prefix then prefix else prefix + [id]
  }

  /** Every listed wallet id is the id of some record. */
  lemma {:induction false} WalletsAreUsed(s: seq<Tx>)
    ensures forall j :: 0 <= j < |Wallets(s)| ==> exists i :: 0 <= i < |s| && s[i].userId == Wallets(s)[j]
  {
    if s != [] {
      var p := s[..|s| - 1];
      WalletsAreUsed(p);
      var ws := Wallets(s);
      var id := s[|s| - 1].userId;
      assert ws == Wallets(p) || ws == Wallets(p) + [id];
      forall j | 0 <= j < |ws|
        ensures exists i :: 0 <= i < |s| && s[i].userId == ws[j]
      {
        if j < |Wallets(p)| {
          assert ws[j] == Wallets(p)[j];
          var i :| 0 <= i < |p| && p[i].userId == Wallets(p)[j];
          assert s[i] == p[i];
        } else {
          assert s[|s| - 1].userId == ws[j];
        }
      }
    } else {
      assert Wallets(s) == [];
    }
  }

  /** Every listed wallet has records, so the `txs.empty` guard never skips one. */
  lemma WalletsHaveRecords(s: seq<Tx>)
    ensures forall w :: w in Wallets(s) ==> WalletTxs(s, w) != []
  {
    var ws := Wallets(s);
    WalletsAreUsed(s);
    forall w | w in ws
      ensures WalletTxs(s, w) != []
    {
      var j :| 0 <= j < |ws| && ws[j] == w;
      var i :| 0 <= i < |s| && s[i].userId == ws[j];
    }
  }

  /** `len(txs[txs['type'] == kind])` */
  function CountOfKind(s: seq<Tx>, kind: string): (n: nat)
    ensures n <= |s|
  {
    if s == [] then 0
    else CountOfKind(s[..|s| - 1], kind) + (if s[|s| - 1].kind == kind then 1 else 0)
  }

  /** `txs[txs['type'] == kind]['amountUSD'].sum()` */
  function AmountUsdOfKind(s: seq<Tx>, kind: string): real {
    if s == [] then 0.0
    else
      var last := s[|s| - 1];
      AmountUsdOfKind(s[..|s| - 1], kind) + (if last.kind == kind then last.amountUsd else 0.0)
  }

  /** `txs[txs['type'] == kind]['principalAmountUSD'].sum()` */
  function PrincipalUsdOfKind(s: seq<Tx>, kind: string): real {
    if s == [] then 0.0
    else
      var last := s[|s| - 1];
      PrincipalUsdOfKind(s[..|s| - 1], kind) + (if last.kind == kind then last.principalAmountUsd else 0.0)
  }

  /** `txs[txs['type'] == kind]`: the records of one type, in their order. */
  function OfKind(s: seq<Tx>, kind: string): (r: seq<Tx>)
    ensures |r| <= |s|
    ensures forall i :: 0 <= i < |r| ==> r[i].kind == kind
  {
    if s == [] then []
    else
      var last := s[|s| - 1];
      OfKind(s[..|s| - 1], kind) + (if last.kind == kind then [last] else [])
  }

  /** `['amountUSD'].sum()` */
  function SumAmountUsd(s: seq<Tx>): real {
    if s == [] then 0.0 else SumAmountUsd(s[..|s| - 1]) + s[|s| - 1].amountUsd
  }

  /** `['principalAmountUSD'].sum()` */
  function SumPrincipalUsd(s: seq<Tx>): real {
    if s == [] then 0.0 else SumPrincipalUsd(s[..|s| - 1]) + s[|s| - 1].principalAmountUsd
  }

  /** The filter keeps exactly the records of `s` whose type is `kind`. */
  lemma {:induction false} OfKindMembers(s: seq<Tx>, kind: string)
    ensures forall t :: t in OfKind(s, kind) <==> t in s && t.kind == kind
  {
    if s != [] {
      var p := s[..|s| - 1];
      OfKindMembers(p, kind);
      assert s == p + [s[|s| - 1]];
    }
  }

  /**
   * The per-type count and sums are those of the filtered records: the type
   * filter followed by `len` or `sum` gives the same numbers.
   */
  lemma {:induction false} KindFilter(s: seq<Tx>, kind: string)
    ensures CountOfKind(s, kind) == |OfKind(s, kind)|
    ensures AmountUsdOfKind(s, kind) == SumAmountUsd(OfKind(s, kind))
    ensures PrincipalUsdOfKind(s, kind) == SumPrincipalUsd(OfKind(s, kind))
  {
    if s != [] {
      var p := s[..|s| - 1];
      var last := s[|s| - 1];
      KindFilter(p, kind);
      var q := OfKind(p, kind);
      if last.kind == kind {
        var r := q + [last];
        assert OfKind(s, kind) == r;
        assert r[..|q|] == q;
        assert SumAmountUsd(r) == SumAmountUsd(q) + last.amountUsd;
        assert SumPrincipalUsd(r) == SumPrincipalUsd(q) + last.principalAmountUsd;
      } else {
        assert OfKind(s, kind) == q;
      }
    }
  }

  /** `timestamp.min()`: a lower bound of the timestamps (attained, see below). */
  function MinTimestamp(s: seq<Tx>): (m: int)
    requires |s| > 0
    ensures forall i :: 0 <= i < |s| ==> m <= s[i].timestamp
  {
    if |s| == 1 then s[0].timestamp
    else
      var m := MinTimestamp(s[..|s| - 1]);
      assert forall i :: 0 <= i < |s| - 1 ==> s[..|s| - 1][i] == s[i];
      if s[|s| - 1].timestamp < m then s[|s| - 1].timestamp else m
  }

  /** `timestamp.max()`: an upper bound of the timestamps (attained, see below). */
  function MaxTimestamp(s: seq<Tx>): (m: int)
    requires |s| > 0
    ensures forall i :: 0 <= i < |s| ==> s[i].timestamp <= m
  {
    if |s| == 1 then s[0].timestamp
    else
      var m := MaxTimestamp(s[..|s| - 1]);
      assert forall i :: 0 <= i < |s| - 1 ==> s[..|s| - 1][i] == s[i];
      if s[|s| - 1].timestamp > m then s[|s| - 1].timestamp else m
  }

  /** The earliest and the latest timestamp are timestamps of records of `s`. */
  lemma {:induction false} TimestampBoundsAttained(s: seq<Tx>)
    requires |s| > 0
    ensures exists i :: 0 <= i < |s| && s[i].timestamp == MinTimestamp(s)
    ensures exists j :: 0 <= j < |s| && s[j].timestamp == MaxTimestamp(s)
  {
    if |s| > 1 {
      var p := s[..|s| - 1];
      TimestampBoundsAttained(p);
      var i :| 0 <= i < |p| && p[i].timestamp == MinTimestamp(p);
      var j :| 0 <= j < |p| && p[j].timestamp == MaxTimestamp(p);
      assert s[i] == p[i] && s[j] == p[j];
      var last := |s| - 1;
      assert MinTimestamp(s) == s[i].timestamp || MinTimestamp(s) == s[last].timestamp;
      assert MaxTimestamp(s) == s[j].timestamp || MaxTimestamp(s) == s[last].timestamp;
    } else {
      assert s[0].timestamp == MinTimestamp(s) == MaxTimestamp(s);
    }
  }

  /** The distinct asset symbols present (`nunique` ignores missing cells). */
  function AssetSymbols(s: seq<Tx>): set<string> {
    set t | t in s && t.assetSymbol.Some? :: t.assetSymbol.value
  }

  lemma {:induction false} AssetSymbolsBound(s: seq<Tx>)
    ensures |AssetSymbols(s)| <= |s|
  {
    if s != [] {
      var p := s[..|s| - 1];
      var last := s[|s| - 1];
      AssetSymbolsBound(p);
      assert s == p + [last];
      var extra := if last.assetSymbol.Some? then {last.assetSymbol.value} else {};
      assert AssetSymbols(s) == AssetSymbols(p) + extra;
      assert |extra| <= 1;
    }
  }

  /** The whole days between the earliest and the latest record (`Timedelta.days`). */
  function AgeDays(s: seq<Tx>): int
    requires |s| > 0
  {
    (MaxTimestamp(s) - MinTimestamp(s)) / SECONDS_PER_DAY
  }

  /** `(age * 24) / count` for more than one record, 0 otherwise. */
  function AverageGapHours(age: int, count: int): real {
    if count > 1 then (age * HOURS_PER_DAY) as real / count as real else 0.0
  }

  /** Python's `min` on two floats. */
  function Min(a: real, b: real): real {
    if b < a then b else a
  }

  /**
   * `health_ratio`: deposits over borrows, or the deposits themselves when
   * nothing was borrowed.
   */
  function HealthRatio(deposited: real, borrowed: real): real {
    if borrowed != 0.0 then deposited / borrowed else deposited
  }

  /**
   * `repay_to_borrow_ratio`: repays over borrows capped at 1, or 1 when
   * nothing was borrowed.
   */
  function RepayRatio(repaid: real, borrowed: real): real {
    if borrowed != 0.0 then Min(repaid / borrowed, 1.0) else 1.0
  }

  /**
   * The health ratio is the deposit total when nothing was borrowed, and
   * otherwise the number that multiplied by the borrowed total gives the
   * deposits; it is non-negative when both totals are.
   */
  lemma HealthRatioRules(deposited: real, borrowed: real)
    ensures borrowed == 0.0 ==> HealthRatio(deposited, borrowed) == deposited
    ensures borrowed != 0.0 ==> HealthRatio(deposited, borrowed) * borrowed == deposited
    ensures deposited >= 0.0 && borrowed >= 0.0 ==> HealthRatio(deposited, borrowed) >= 0.0
  {
  }

  /**
   * The repay ratio never exceeds 1; it is 1 when nothing was borrowed or
   * when at least the borrowed total was repaid, and otherwise the fraction
   * of the (positive) borrowed total that was repaid. It is non-negative when
   * both totals are.
   */
  lemma RepayRatioRules(repaid: real, borrowed: real)
    ensures RepayRatio(repaid, borrowed) <= 1.0
    ensures borrowed == 0.0 ==> RepayRatio(repaid, borrowed) == 1.0
    ensures borrowed > 0.0 && repaid >= borrowed ==> RepayRatio(repaid, borrowed) == 1.0
    ensures borrowed > 0.0 && repaid <= borrowed ==> RepayRatio(repaid, borrowed) * borrowed == repaid
    ensures repaid >= 0.0 && borrowed >= 0.0 ==> 0.0 <= RepayRatio(repaid, borrowed)
  {
    if borrowed > 0.0 {
      var q := repaid / borrowed;
      assert q * borrowed == repaid;
      if repaid >= borrowed {
        assert q >= 1.0;
      } else {
        assert q <= 1.0;
      }
    } else if borrowed < 0.0 {
      assert RepayRatio(repaid, borrowed) <= 1.0;
    }
  }

  /** The feature row of wallet `w` whose records are `s`. */
  function WalletFeatures(w: string, s: seq<Tx>): (row: FeatureRow)
    requires |s| > 0
    ensures row.walletId == w
    ensures row.transactionCount == |s|
  {
    var age := AgeDays(s);
    var count := |s|;
    var dep := AmountUsdOfKind(s, DEPOSIT);
    var bor := AmountUsdOfKind(s, BORROW);
    var rep := AmountUsdOfKind(s, REPAY);
    FeatureRow(w, age, count, AverageGapHours(age, count),
               CountOfKind(s, LIQUIDATION), PrincipalUsdOfKind(s, LIQUIDATION), dep, bor,
               HealthRatio(dep, bor), RepayRatio(rep, bor), |AssetSymbols(s)|)
  }

  /**
   * The age is the number of whole days between the wallet's earliest and
   * latest record, and for a wallet with more than one record the average
   * gap is that age, in hours, divided by the record count.
   */
  lemma AgeAndAverageGap(w: string, s: seq<Tx>)
    requires |s| > 0
    ensures WalletFeatures(w, s).walletAgeDays * SECONDS_PER_DAY
      <= MaxTimestamp(s) - MinTimestamp(s)
      < (WalletFeatures(w, s).walletAgeDays + 1) * SECONDS_PER_DAY
    ensures |s| > 1 ==>
      WalletFeatures(w, s).avgTimeBetweenTxsHours
      == (WalletFeatures(w, s).walletAgeDays * HOURS_PER_DAY) as real / |s| as real
  {
  }

  /**
   * The liquidation columns count and sum `principalAmountUSD` over the
   * wallet's liquidation records only; the deposit and borrow totals sum
   * `amountUSD` over the records of their own type only.
   */
  lemma RowKindTotals(w: string, s: seq<Tx>)
    requires |s| > 0
    ensures WalletFeatures(w, s).liquidationCount == |OfKind(s, LIQUIDATION)|
    ensures WalletFeatures(w, s).totalLiquidatedUsd == SumPrincipalUsd(OfKind(s, LIQUIDATION))
    ensures WalletFeatures(w, s).totalDepositedUsd == SumAmountUsd(OfKind(s, DEPOSIT))
    ensures WalletFeatures(w, s).totalBorrowedUsd == SumAmountUsd(OfKind(s, BORROW))
  {
    KindFilter(s, LIQUIDATION);
    KindFilter(s, DEPOSIT);
    KindFilter(s, BORROW);
  }

  /** A wallet with a single record has age 0 and average gap 0. */
  lemma SingleTransactionWallet(w: string, s: seq<Tx>)
    requires |s| == 1
    ensures WalletFeatures(w, s).walletAgeDays == 0
    ensures WalletFeatures(w, s).avgTimeBetweenTxsHours == 0.0
  {
  }

  /**
   * The age and the average gap are non-negative, and the liquidation and
   * asset counts lie between 0 and the record count.
   */
  lemma RowBounds(w: string, s: seq<Tx>)
    requires |s| > 0
    ensures WalletFeatures(w, s).walletAgeDays >= 0
    ensures WalletFeatures(w, s).avgTimeBetweenTxsHours >= 0.0
    ensures 0 <= WalletFeatures(w, s).liquidationCount <= |s|
    ensures 0 <= WalletFeatures(w, s).uniqueAssetsUsed <= |s|
  {
    AssetSymbolsBound(s);
    var age := AgeDays(s);
    assert age >= 0;
    assert AverageGapHours(age, |s|) >= 0.0;
  }

  /**
   * The ratio rules of a row: with nothing borrowed the health ratio is the
   * deposit total and the repay ratio is 1; otherwise they are the deposit
   * and the repay totals over the borrowed total, the latter capped at 1.
   */
  lemma RatioRules(w: string, s: seq<Tx>)
    requires |s| > 0
    ensures var row := WalletFeatures(w, s);
      var repaid := AmountUsdOfKind(s, REPAY);
      && row.repayToBorrowRatio <= 1.0
      && (row.totalBorrowedUsd == 0.0 ==>
            row.healthRatio == row.totalDepositedUsd && row.repayToBorrowRatio == 1.0)
      && (row.totalBorrowedUsd != 0.0 ==>
            && row.healthRatio == row.totalDepositedUsd / row.totalBorrowedUsd
            && row.repayToBorrowRatio == Min(repaid / row.totalBorrowedUsd, 1.0))
  {
    RepayRatioRules(AmountUsdOfKind(s, REPAY), AmountUsdOfKind(s, BORROW));
  }

  /** Sums of non-negative USD amounts are non-negative. */
  lemma {:induction false} AmountUsdOfKindNonNegative(s: seq<Tx>, kind: string)
    requires forall t :: t in s ==> t.amountUsd >= 0.0
    ensures AmountUsdOfKind(s, kind) >= 0.0
  {
    if s != [] {
      var p := s[..|s| - 1];
      assert forall t :: t in p ==> t in s;
      AmountUsdOfKindNonNegative(p, kind);
    }
  }

  /**
   * When every record of the wallet has a non-negative USD amount, the
   * health ratio is non-negative and the repay ratio lies in [0, 1].
   */
  lemma RatiosOfNonNegativeAmounts(w: string, s: seq<Tx>)
    requires |s| > 0
    requires forall i :: 0 <= i < |s| ==> s[i].amountUsd >= 0.0
    ensures WalletFeatures(w, s).healthRatio >= 0.0
    ensures 0.0 <= WalletFeatures(w, s).repayToBorrowRatio <= 1.0
  {
    var dep := AmountUsdOfKind(s, DEPOSIT);
    var bor := AmountUsdOfKind(s, BORROW);
    var rep := AmountUsdOfKind(s, REPAY);
    AmountUsdOfKindNonNegative(s, DEPOSIT);
    AmountUsdOfKindNonNegative(s, BORROW);
    AmountUsdOfKindNonNegative(s, REPAY);
    HealthRatioRules(dep, bor);
    RepayRatioRules(rep, bor);
  }

  /** A wallet id together with its records. */
  datatype WalletGroup = WalletGroup(wallet: string, records: seq<Tx>)

  /**
   * The groups of the wallets `ws`, in that order; a wallet without records
   * is skipped.
   */
  function Groups(ws: seq<string>, txs: seq<Tx>): (gs: seq<WalletGroup>)
    ensures |gs| <= |ws|
    ensures forall i :: 0 <= i < |gs| ==> gs[i].records != []
  {
    if ws == [] then []
    else
      var w := ws[|ws| - 1];
      var walletTxs := WalletTxs(txs, w);
      Groups(ws[..|ws| - 1], txs) + (if walletTxs != [] then [WalletGroup(w, walletTxs)] else [])
  }

  /** When no wallet is skipped, group `i` holds wallet `ws[i]` and its records. */
  lemma {:induction false} GroupAt(ws: seq<string>, txs: seq<Tx>, i: nat)
    requires forall w :: w in ws ==> WalletTxs(txs, w) != []
    requires i < |ws|
    ensures |Groups(ws, txs)| == |ws|
    ensures Groups(ws, txs)[i] == WalletGroup(ws[i], WalletTxs(txs, ws[i]))
  {
    var front := ws[..|ws| - 1];
    var w := ws[|ws| - 1];
    assert forall v :: v in front ==> v in ws;
    assert w in ws;
    if i < |front| {
      GroupAt(front, txs, i);
    } else if front != [] {
      GroupAt(front, txs, 0);
    }
  }

  /** One more wallet adds its group, unless it has no records. */
  lemma GroupsStep(ws: seq<string>, i: nat, txs: seq<Tx>)
    requires i < |ws|
    ensures WalletTxs(txs, ws[i]) != [] ==>
      Groups(ws[..i + 1], txs) == Groups(ws[..i], txs) + [WalletGroup(ws[i], WalletTxs(txs, ws[i]))]
    ensures WalletTxs(txs, ws[i]) == [] ==> Groups(ws[..i + 1], txs) == Groups(ws[..i], txs)
  {
    assert ws[..i + 1][..i] == ws[..i];
  }

  /** The feature row of each group, in order. */
  function RowsOf(gs: seq<WalletGroup>): (rows: seq<FeatureRow>)
    requires forall i :: 0 <= i < |gs| ==> gs[i].records != []
    ensures |rows| == |gs|
  {
    if gs == [] then []
    else
      var g := gs[|gs| - 1];
      RowsOf(gs[..|gs| - 1]) + [WalletFeatures(g.wallet, g.records)]
  }

  lemma {:induction false} RowOf(gs: seq<WalletGroup>, i: nat)
    requires forall i :: 0 <= i < |gs| ==> gs[i].records != []
    requires i < |gs|
    ensures RowsOf(gs)[i] == WalletFeatures(gs[i].wallet, gs[i].records)
  {
    var front := gs[..|gs| - 1];
    if i < |front| {
      RowOf(front, i);
    }
  }

  lemma RowsOfAppend(gs: seq<WalletGroup>, g: WalletGroup, rows: seq<FeatureRow>)
    requires forall i :: 0 <= i < |gs| ==> gs[i].records != []
    requires g.records != []
    requires rows == RowsOf(gs)
    ensures RowsOf(gs + [g]) == rows + [WalletFeatures(g.wallet, g.records)]
  {
    assert (gs + [g])[..|gs|] == gs;
  }

  /** The feature table: one row per distinct wallet, in order of first appearance. */
  function FeatureTable(txs: seq<Tx>): seq<FeatureRow> {
    RowsOf(Groups(Wallets(txs), txs))
  }

  /**
   * The loop of `build_features`: for each distinct wallet, select its
   * records, skip the wallet if there are none, otherwise reduce them to a
   * row and append the row.
   */
  method BuildFeatures(txs: seq<Tx>) returns (features: seq<FeatureRow>)
    ensures features == FeatureTable(txs)
  {
    var wallets := Wallets(txs);
    features := [];
    for i := 0 to |wallets|
      invariant features == RowsOf(Groups(wallets[..i], txs))
    {
      var w := wallets[i];
      var walletTxs := WalletTxs(txs, w);
      GroupsStep(wallets, i, txs);
      if walletTxs != [] {
        RowsOfAppend(Groups(wallets[..i], txs), WalletGroup(w, walletTxs), features);
        features := features + [WalletFeatures(w, walletTxs)];
      }
    }
    assert wallets[..|wallets|] == wallets;
  }

  /** Row `i` of the feature table belongs to the `i`-th distinct wallet. */
  lemma TableRow(txs: seq<Tx>, i: nat)
    requires i < |Wallets(txs)|
    ensures |FeatureTable(txs)| == |Wallets(txs)|
    ensures FeatureTable(txs)[i].walletId == Wallets(txs)[i]
    ensures FeatureTable(txs)[i].transactionCount == |WalletTxs(txs, Wallets(txs)[i])|
    ensures WalletTxs(txs, Wallets(txs)[i]) != []
    ensures FeatureTable(txs)[i] == WalletFeatures(Wallets(txs)[i], WalletTxs(txs, Wallets(txs)[i]))
  {
    var ws := Wallets(txs);
    WalletsHaveRecords(txs);
    GroupAt(ws, txs, i);
    RowOf(Groups(ws, txs), i);
  }

  /** The wallet ids of the feature table's rows are the distinct wallet ids. */
  lemma TableWallets(txs: seq<Tx>)
    ensures |FeatureTable(txs)| == |Wallets(txs)|
    ensures forall i :: 0 <= i < |Wallets(txs)| ==>
      && FeatureTable(txs)[i].walletId == Wallets(txs)[i]
      && FeatureTable(txs)[i].transactionCount == |WalletTxs(txs, Wallets(txs)[i])|
      && WalletTxs(txs, Wallets(txs)[i]) != []
      && FeatureTable(txs)[i] == WalletFeatures(Wallets(txs)[i], WalletTxs(txs, Wallets(txs)[i]))
  {
    var ws := Wallets(txs);
    var rows := FeatureTable(txs);
    WalletsHaveRecords(txs);
    forall i | 0 <= i < |ws|
      ensures |rows| == |ws| && rows[i].walletId == ws[i]
      ensures rows[i].transactionCount == |WalletTxs(txs, ws[i])|
      ensures WalletTxs(txs, ws[i]) != [] && rows[i] == WalletFeatures(ws[i], WalletTxs(txs, ws[i]))
    {
      TableRow(txs, i);
    }
  }

  /**
   * `rows` has exactly one row per distinct wallet id of `txs`, and each row
   * counts that wallet's records, so no row has a count below 1.
   */
  predicate OneRowEach(txs: seq<Tx>, rows: seq<FeatureRow>) {
    && (forall i, j :: 0 <= i < j < |rows| ==> rows[i].walletId != rows[j].walletId)
    && (forall k :: 0 <= k < |txs| ==>
          exists i :: 0 <= i < |rows| && rows[i].walletId == txs[k].userId)
    && (forall i :: 0 <= i < |rows| ==>
          exists k :: 0 <= k < |txs| && txs[k].userId == rows[i].walletId)
    && (forall i :: 0 <= i < |rows| ==>
          rows[i].transactionCount == |WalletTxs(txs, rows[i].walletId)| >= 1)
  }

  /** `build_features` emits one row per distinct wallet id. */
  lemma OneRowPerWallet(txs: seq<Tx>)
    ensures OneRowEach(txs, FeatureTable(txs))
  {
    TableWallets(txs);
    RowPerWallet(txs, FeatureTable(txs));
  }

  /** Row `i` of `rows` belongs to the `i`-th distinct wallet and counts its records. */
  predicate RowsFollowWallets(txs: seq<Tx>, rows: seq<FeatureRow>) {
    && |rows| == |Wallets(txs)|
    && (forall i :: 0 <= i < |rows| ==> rows[i].walletId == Wallets(txs)[i])
    && (forall i :: 0 <= i < |rows| ==> rows[i].transactionCount == |WalletTxs(txs, rows[i].walletId)|)
  }

  lemma RowPerWallet(txs: seq<Tx>, rows: seq<FeatureRow>)
    requires RowsFollowWallets(txs, rows)
    ensures OneRowEach(txs, rows)
  {
    RowsDistinct(txs, rows);
    RowsCoverRecords(txs, rows);
    RowsHaveRecords(txs, rows);
  }

  lemma RowsDistinct(txs: seq<Tx>, rows: seq<FeatureRow>)
    requires RowsFollowWallets(txs, rows)
    ensures forall i, j :: 0 <= i < j < |rows| ==> rows[i].walletId != rows[j].walletId
  {
    assert NoDuplicates(Wallets(txs));
  }

  lemma RowsCoverRecords(txs: seq<Tx>, rows: seq<FeatureRow>)
    requires RowsFollowWallets(txs, rows)
    ensures forall k :: 0 <= k < |txs| ==>
      exists i :: 0 <= i < |rows| && rows[i].walletId == txs[k].userId
  {
    var ws := Wallets(txs);
    forall k | 0 <= k < |txs|
      ensures exists i :: 0 <= i < |rows| && rows[i].walletId == txs[k].userId
    {
      var i :| 0 <= i < |ws| && ws[i] == txs[k].userId;
      assert rows[i].walletId == ws[i];
    }
  }

  lemma RowsHaveRecords(txs: seq<Tx>, rows: seq<FeatureRow>)
    requires RowsFollowWallets(txs, rows)
    ensures forall i :: 0 <= i < |rows| ==>
      exists k :: 0 <= k < |txs| && txs[k].userId == rows[i].walletId
    ensures forall i :: 0 <= i < |rows| ==> |WalletTxs(txs, rows[i].walletId)| >= 1
  {
    var ws := Wallets(txs);
    WalletsAreUsed(txs);
    forall i | 0 <= i < |rows|
      ensures exists k :: 0 <= k < |txs| && txs[k].userId == rows[i].walletId
      ensures |WalletTxs(txs, rows[i].walletId)| >= 1
    {
      assert rows[i].walletId == ws[i];
      var k :| 0 <= k < |txs| && txs[k].userId == ws[i];
      assert txs[k].userId == rows[i].walletId;
    }
  }

  /** The summable columns of the feature table. */
  datatype Measure = Transactions | Liquidations | LiquidatedUsd | DepositedUsd | BorrowedUsd

  function RowMeasure(row: FeatureRow, m: Measure): real {
    match m
    case Transactions => row.transactionCount as real
    case Liquidations => row.liquidationCount as real
    case LiquidatedUsd => row.totalLiquidatedUsd
    case DepositedUsd => row.totalDepositedUsd
    case BorrowedUsd => row.totalBorrowedUsd
  }

  /** What one record adds to a measure of its wallet's row. */
  function Contribution(t: Tx, m: Measure): real {
    match m
    case Transactions => 1.0
    case Liquidations => if t.kind == LIQUIDATION then 1.0 else 0.0
    case LiquidatedUsd => if t.kind == LIQUIDATION then t.principalAmountUsd else 0.0
    case DepositedUsd => if t.kind == DEPOSIT then t.amountUsd else 0.0
    case BorrowedUsd => if t.kind == BORROW then t.amountUsd else 0.0
  }

  function Total(s: seq<Tx>, m: Measure): real {
    if s == [] then 0.0 else Total(s[..|s| - 1], m) + Contribution(s[|s| - 1], m)
  }

  function TableTotal(rows: seq<FeatureRow>, m: Measure): real {
    if rows == [] then 0.0 else TableTotal(rows[..|rows| - 1], m) + RowMeasure(rows[|rows| - 1], m)
  }

  /** The sum over the wallets `ws` of what each wallet's records contribute. */
  function WalletTotal(ws: seq<string>, s: seq<Tx>, m: Measure): real {
    if ws == [] then 0.0
    else WalletTotal(ws[..|ws| - 1], s, m) + Total(WalletTxs(s, ws[|ws| - 1]), m)
  }

  /** The per-type counts and sums of a row add up record contributions. */
  lemma {:induction false} KindSums(s: seq<Tx>)
    ensures |s| as real == Total(s, Transactions)
    ensures CountOfKind(s, LIQUIDATION) as real == Total(s, Liquidations)
    ensures PrincipalUsdOfKind(s, LIQUIDATION) == Total(s, LiquidatedUsd)
    ensures AmountUsdOfKind(s, DEPOSIT) == Total(s, DepositedUsd)
    ensures AmountUsdOfKind(s, BORROW) == Total(s, BorrowedUsd)
  {
    if s != [] {
      KindSums(s[..|s| - 1]);
    }
  }

  lemma AppendTotal(q: seq<Tx>, x: Tx, m: Measure)
    ensures Total(q + [x], m) == Total(q, m) + Contribution(x, m)
  {
    assert (q + [x])[..|q|] == q;
  }

  lemma AppendWalletTxs(p: seq<Tx>, x: Tx, w: string)
    ensures WalletTxs(p + [x], w) == WalletTxs(p, w) + (if x.userId == w then [x] else [])
  {
    assert (p + [x])[..|p|] == p;
  }

  lemma RowMeasureIsTotal(w: string, s: seq<Tx>, m: Measure)
    requires |s| > 0
    ensures RowMeasure(WalletFeatures(w, s), m) == Total(s, m)
  {
    KindSums(s);
  }

  lemma {:induction false} WalletTotalStep(ws: seq<string>, p: seq<Tx>, x: Tx, m: Measure)
    requires NoDuplicates(ws)
    ensures WalletTotal(ws, p + [x], m)
      == WalletTotal(ws, p, m) + (if x.userId in ws then Contribution(x, m) else 0.0)
  {
    if ws != [] {
      var front := ws[..|ws| - 1];
      var w := ws[|ws| - 1];
      assert NoDuplicates(front);
      WalletTotalStep(front, p, x, m);
      AppendWalletTxs(p, x, w);
      AppendTotal(WalletTxs(p, w), x, m);
      assert WalletTotal(ws, p + [x], m)
        == WalletTotal(front, p + [x], m) + Total(WalletTxs(p + [x], w), m);
      assert WalletTotal(ws, p, m) == WalletTotal(front, p, m) + Total(WalletTxs(p, w), m);
      assert ws == front + [w];
      assert w !in front;
      if x.userId == w {
        assert x.userId !in front;
      } else {
        assert WalletTxs(p + [x], w) == WalletTxs(p, w);
        assert x.userId in ws <==> x.userId in front;
      }
    }
  }

  /**
   * Splitting the records by wallet loses and duplicates nothing: over a
   * duplicate-free list of wallets covering every record, the per-wallet
   * totals add up to the total over all records.
   */
  lemma {:induction false} Partition(ws: seq<string>, s: seq<Tx>, m: Measure)
    requires NoDuplicates(ws)
    requires forall i :: 0 <= i < |s| ==> s[i].userId in ws
    ensures WalletTotal(ws, s, m) == Total(s, m)
  {
    if s == [] {
      EmptyWalletTotal(ws, m);
    } else {
      var p := s[..|s| - 1];
      var x := s[|s| - 1];
      assert s == p + [x];
      Partition(ws, p, m);
      WalletTotalStep(ws, p, x, m);
    }
  }

  lemma {:induction false} EmptyWalletTotal(ws: seq<string>, m: Measure)
    ensures WalletTotal(ws, [], m) == 0.0
  {
    if ws != [] {
      EmptyWalletTotal(ws[..|ws| - 1], m);
    }
  }

  lemma TableTotalAppend(rows: seq<FeatureRow>, row: FeatureRow, m: Measure)
    ensures TableTotal(rows + [row], m) == TableTotal(rows, m) + RowMeasure(row, m)
  {
    assert (rows + [row])[..|rows|] == rows;
  }

  lemma {:induction false} RowsTotal(ws: seq<string>, txs: seq<Tx>, m: Measure)
    ensures TableTotal(RowsOf(Groups(ws, txs)), m) == WalletTotal(ws, txs, m)
  {
    if ws != [] {
      var front := ws[..|ws| - 1];
      var w := ws[|ws| - 1];
      var walletTxs := WalletTxs(txs, w);
      var before := Groups(front, txs);
      RowsTotal(front, txs, m);
      if walletTxs != [] {
        var g := WalletGroup(w, walletTxs);
        assert Groups(ws, txs) == before + [g];
        RowsOfAppend(before, g, RowsOf(before));
        TableTotalAppend(RowsOf(before), WalletFeatures(w, walletTxs), m);
        RowMeasureIsTotal(w, walletTxs, m);
      } else {
        assert Groups(ws, txs) == before;
        assert WalletTotal(ws, txs, m) == WalletTotal(front, txs, m) + Total([], m);
      }
    }
  }

  /**
   * Column totals of the feature table equal the totals over all records:
   * each record is counted, and its amount summed, in exactly one row.
   */
  lemma ColumnTotals(txs: seq<Tx>)
    ensures TableTotal(FeatureTable(txs), Transactions) == |txs| as real
    ensures TableTotal(FeatureTable(txs), Liquidations) == CountOfKind(txs, LIQUIDATION) as real
    ensures TableTotal(FeatureTable(txs), LiquidatedUsd) == PrincipalUsdOfKind(txs, LIQUIDATION)
    ensures TableTotal(FeatureTable(txs), DepositedUsd) == AmountUsdOfKind(txs, DEPOSIT)
    ensures TableTotal(FeatureTable(txs), BorrowedUsd) == AmountUsdOfKind(txs, BORROW)
  {
    var ws := Wallets(txs);
    KindSums(txs);
    forall m: Measure
      ensures TableTotal(FeatureTable(txs), m) == Total(txs, m)
    {
      RowsTotal(ws, txs, m);
      Partition(ws, txs, m);
    }
  }
}
