/**
 * The prediction handler's feature engineering: the campaign's duration,
 * the pre-alignment feature row (numeric features, then the encoder's
 * indicator columns), its alignment to the regression manifest, and the
 * reading of the classifier's label as a verdict.
 *
 * The fitted clustering model, the one-hot encoder, the scalers, the two
 * models and the logarithms are outside the model: their results enter as
 * parameters (the cluster label, the encoder's named columns, the
 * classifier's label, the log-scaled features).
 */
module Predictor {
  import opened Frames
  import opened Alignment

  /** A calendar date as its day number (proleptic Gregorian ordinal). */
  datatype Date = Date(dayNumber: int)

  /** `(deadline - launched).days`: not validated, so zero or negative when
      the deadline is not after the launch. */
  function DurationDays(launched: Date, deadline: Date): (days: int)
    ensures launched.dayNumber + days == deadline.dayNumber
  {
    deadline.dayNumber - launched.dayNumber
  }

  /** The duration is positive exactly when the deadline is later, zero on
      the same day and negative when the deadline comes first; swapping the
      dates negates it. */
  lemma DurationSign(launched: Date, deadline: Date)
    ensures DurationDays(launched, deadline) > 0 <==> deadline.dayNumber > launched.dayNumber
    ensures DurationDays(launched, deadline) == 0 <==> deadline == launched
    ensures DurationDays(deadline, launched) == -DurationDays(launched, deadline)
  {
  }

  /** log1p of the goal, of the backer count and of the duration. */
  datatype DerivedFeatures<F> = DerivedFeatures(logGoal: F, logBackers: F, logDuration: F)

  const LogGoal: string := "log_usd_goal_real"
  const LogBackers: string := "log_backers"
  const LogDuration: string := "log_duration(Days)"
  const MainCategory: string := "main_category"
  const CountryColumn: string := "country"
  const ClusterColumn: string := "cluster"

  const NumericNames: seq<string> := [LogGoal, LogBackers, LogDuration]
  /** The columns dropped before the encoded ones are appended, in the
      order the handler lists them. */
  const Dropped: seq<string> := [ClusterColumn, MainCategory, CountryColumn]

  /** The six literal column names are pairwise different. */
  lemma ColumnNamesDiffer()
    ensures LogGoal != LogBackers && LogGoal != LogDuration && LogBackers != LogDuration
    ensures LogGoal !in Dropped && LogBackers !in Dropped && LogDuration !in Dropped
    ensures ClusterColumn != MainCategory && ClusterColumn != CountryColumn && MainCategory != CountryColumn
  {
  }

  function NumericColumns<F>(f: DerivedFeatures<F>): Row<F> {
    [Column(LogGoal, Float(f.logGoal)), Column(LogBackers, Float(f.logBackers)),
     Column(LogDuration, Float(f.logDuration))]
  }

  /** `df_new`: the three numeric features and the two categorical inputs. */
  function RequestRow<F>(f: DerivedFeatures<F>, category: string, country: string): Row<F> {
    NumericColumns(f) + [Column(MainCategory, Text(category)), Column(CountryColumn, Text(country))]
  }

  /** The encoder's output as a frame: one column per feature name, in
      encoder order. */
  function EncodedColumns<F>(encoded: seq<(string, F)>): Row<F>
  {
    seq(|encoded|, i requires 0 <= i < |encoded| => Column(encoded[i].0, Float(encoded[i].1)))
  }

  /** Lines 101-114: add the cluster label, drop the categorical columns,
      append the encoded columns. */
  function PreAlignmentRow<F>(f: DerivedFeatures<F>, category: string, country: string,
                              cluster: int, encoded: seq<(string, F)>): Result<Row<F>>
  {
    var withCluster := Assign(RequestRow(f, category, country), ClusterColumn, Int(cluster));
    match Drop(withCluster, Dropped)
    case Success(kept) => Success(kept + EncodedColumns(encoded))
    case Failure(e) => Failure(e)
  }

  /** Setting `df_new['cluster']` appends the cluster column, and the drop
      that follows removes it with the two categorical columns. */
  lemma DropAfterCluster<F>(f: DerivedFeatures<F>, category: string, country: string, cluster: int)
    ensures Drop(Assign(RequestRow(f, category, country), ClusterColumn, Int(cluster)), Dropped) ==
            Success(NumericColumns(f))
  {
    ColumnNamesDiffer();
    var request := RequestRow(f, category, country);
    var categorical: Row<F> := [Column(MainCategory, Text(category)), Column(CountryColumn, Text(country))];
    var clusterCol: Row<F> := [Column(ClusterColumn, Int(cluster))];
    assert Names(request) == [LogGoal, LogBackers, LogDuration, MainCategory, CountryColumn];
    var withCluster := Assign(request, ClusterColumn, Int(cluster));
    assert withCluster == request + clusterCol;
    NamesAppend(request, clusterCol);
    assert Names(withCluster) == Names(request) + [ClusterColumn];
    assert Missing(Names(withCluster), Dropped) == [];
    var n := NumericColumns(f);
    assert withCluster == (n + categorical) + clusterCol;
    KeepAppend(n + categorical, clusterCol, Dropped);
    KeepAppend(n, categorical, Dropped);
    KeepNumeric(f);
    KeepCategorical(categorical);
    KeepCluster(clusterCol);
    assert Keep(withCluster, Dropped) == Keep(n + categorical, Dropped) + Keep(clusterCol, Dropped);
    assert Keep(n + categorical, Dropped) == n;
    assert Keep(withCluster, Dropped) == n;
  }

  /** The drop never fails, and the pre-alignment row is the numeric
      columns followed by the encoded ones in encoder order; it has none of
      the dropped names unless the encoder itself emits one. */
  lemma PreAlignmentRowShape<F>(f: DerivedFeatures<F>, category: string, country: string,
                                cluster: int, encoded: seq<(string, F)>)
    ensures PreAlignmentRow(f, category, country, cluster, encoded) ==
            Success(NumericColumns(f) + EncodedColumns(encoded))
    ensures Names(PreAlignmentRow(f, category, country, cluster, encoded).value) ==
            NumericNames + Names(EncodedColumns(encoded))
    ensures forall d :: d in Dropped && d !in Names(EncodedColumns(encoded)) ==>
              d !in Names(PreAlignmentRow(f, category, country, cluster, encoded).value)
  {
    ColumnNamesDiffer();
    DropAfterCluster(f, category, country, cluster);
    NamesAppend(NumericColumns(f), EncodedColumns(encoded));
    assert Names(NumericColumns(f)) == NumericNames;
  }

  lemma KeepNumeric<F>(f: DerivedFeatures<F>)
    ensures Keep(NumericColumns(f), Dropped) == NumericColumns(f)
  {
    ColumnNamesDiffer();
    var n := NumericColumns(f);
    assert n[1..][1..][1..] == [];
    assert Keep(n[1..][1..], Dropped) == [n[2]];
    assert Keep(n[1..], Dropped) == [n[1], n[2]];
  }

  lemma KeepCategorical<F>(categorical: Row<F>)
    requires |categorical| == 2 && categorical[0].name == MainCategory && categorical[1].name == CountryColumn
    ensures Keep(categorical, Dropped) == []
  {
    ColumnNamesDiffer();
    assert categorical[1..][1..] == [];
    assert Keep(categorical[1..], Dropped) == [];
  }

  lemma KeepCluster<F>(clusterCol: Row<F>)
    requires |clusterCol| == 1 && clusterCol[0].name == ClusterColumn
    ensures Keep(clusterCol, Dropped) == []
  {
  }

  /** What the encoder contributes is well formed: its feature names are
      distinct and differ from the numeric column names. */
  ghost predicate EncodingFits<F>(encoded: seq<(string, F)>) {
    && Distinct(Names(EncodedColumns(encoded)))
    && forall i :: 0 <= i < |encoded| ==> encoded[i].0 !in NumericNames
  }

  lemma PreAlignmentDistinct<F>(f: DerivedFeatures<F>, category: string, country: string,
                                cluster: int, encoded: seq<(string, F)>)
    requires EncodingFits(encoded)
    ensures PreAlignmentRow(f, category, country, cluster, encoded).Success?
    ensures Distinct(Names(PreAlignmentRow(f, category, country, cluster, encoded).value))
  {
    PreAlignmentRowShape(f, category, country, cluster, encoded);
    var ns := Names(PreAlignmentRow(f, category, country, cluster, encoded).value);
    var en := Names(EncodedColumns(encoded));
    assert ns == NumericNames + en;
    forall i, j | 0 <= i < j < |ns| ensures ns[i] != ns[j] {
      if j >= 3 {
        assert ns[j] == en[j - 3] == encoded[j - 3].0;
        if i >= 3 {
          assert ns[i] == en[i - 3];
        } else {
          assert ns[i] in NumericNames;
        }
      }
    }
  }

  /** The value a manifest name gets in the aligned row, stated directly
      from the request: a numeric feature, an encoder column (the first one
      of that name), or 0. */
  function ExpectedValue<F>(f: DerivedFeatures<F>, encoded: seq<(string, F)>, n: string): Value<F> {
    if n == LogGoal then Float(f.logGoal)
    else if n == LogBackers then Float(f.logBackers)
    else if n == LogDuration then Float(f.logDuration)
    else if n in Names(EncodedColumns(encoded)) then Float(encoded[IndexOf(Names(EncodedColumns(encoded)), n)].1)
    else Int(0)
  }

  /** Reading a name from the pre-alignment row gives its expected value;
      a name the row lacks is expected to be 0. */
  lemma PreAlignmentLookup<F>(f: DerivedFeatures<F>, encoded: seq<(string, F)>, n: string)
    requires Distinct(Names(NumericColumns(f) + EncodedColumns(encoded)))
    ensures n in Names(NumericColumns(f) + EncodedColumns(encoded)) ==>
              Lookup(NumericColumns(f) + EncodedColumns(encoded), n) == ExpectedValue(f, encoded, n)
    ensures n !in Names(NumericColumns(f) + EncodedColumns(encoded)) ==> ExpectedValue(f, encoded, n) == Int(0)
  {
    ColumnNamesDiffer();
    var pre := NumericColumns(f) + EncodedColumns(encoded);
    var en := Names(EncodedColumns(encoded));
    NamesAppend(NumericColumns(f), EncodedColumns(encoded));
    assert Names(NumericColumns(f)) == NumericNames;
    if n == LogGoal {
      LookupAt(pre, 0);
    } else if n == LogBackers {
      LookupAt(pre, 1);
    } else if n == LogDuration {
      LookupAt(pre, 2);
    } else if n in en {
      var j := IndexOf(en, n);
      assert pre[j + 3] == EncodedColumns(encoded)[j];
      LookupAt(pre, j + 3);
    } else {
      assert Names(pre) == NumericNames + en;
    }
  }

  /** Lines 101-119: the feature row handed to the regression scaler. */
  function FeatureRow<F>(f: DerivedFeatures<F>, category: string, country: string, cluster: int,
                         encoded: seq<(string, F)>, manifest: seq<string>): Result<Row<F>>
  {
    match PreAlignmentRow(f, category, country, cluster, encoded)
    case Success(pre) => Aligned(pre, manifest)
    case Failure(e) => Failure(e)
  }

  /** The feature row always exists, has exactly the manifest's column names
      in manifest order, and holds for each name its numeric feature, its
      encoder value, or 0. */
  lemma FeatureRowSpec<F>(f: DerivedFeatures<F>, category: string, country: string, cluster: int,
                          encoded: seq<(string, F)>, manifest: seq<string>)
    requires EncodingFits(encoded)
    ensures FeatureRow(f, category, country, cluster, encoded, manifest).Success?
    ensures Names(FeatureRow(f, category, country, cluster, encoded, manifest).value) == manifest
    ensures forall i :: 0 <= i < |manifest| ==>
              FeatureRow(f, category, country, cluster, encoded, manifest).value[i].value ==
              ExpectedValue(f, encoded, manifest[i])
  {
    PreAlignmentRowShape(f, category, country, cluster, encoded);
    PreAlignmentDistinct(f, category, country, cluster, encoded);
    var pre := NumericColumns(f) + EncodedColumns(encoded);
    AlignedSpec(pre, manifest);
    var r := Aligned(pre, manifest).value;
    forall i | 0 <= i < |manifest|
      ensures r[i].value == ExpectedValue(f, encoded, manifest[i])
    {
      PreAlignmentLookup(f, encoded, manifest[i]);
    }
  }

  /** Whatever category, country and cluster two requests carry, their
      feature rows have the same column names in the same order. */
  lemma ShapeIsRequestIndependent<F>(
    f1: DerivedFeatures<F>, category1: string, country1: string, cluster1: int, encoded1: seq<(string, F)>,
    f2: DerivedFeatures<F>, category2: string, country2: string, cluster2: int, encoded2: seq<(string, F)>,
    manifest: seq<string>)
    requires EncodingFits(encoded1) && EncodingFits(encoded2)
    ensures FeatureRow(f1, category1, country1, cluster1, encoded1, manifest).Success?
    ensures FeatureRow(f2, category2, country2, cluster2, encoded2, manifest).Success?
    ensures Names(FeatureRow(f1, category1, country1, cluster1, encoded1, manifest).value) ==
            Names(FeatureRow(f2, category2, country2, cluster2, encoded2, manifest).value)
    ensures |FeatureRow(f1, category1, country1, cluster1, encoded1, manifest).value| == |manifest|
  {
    FeatureRowSpec(f1, category1, country1, cluster1, encoded1, manifest);
    FeatureRowSpec(f2, category2, country2, cluster2, encoded2, manifest);
  }

  /** The handler's steps on frames: build `df_new`, set its cluster column,
      drop and concatenate into `X_reg`, zero-fill `X_reg` in place, then
      select the manifest's columns. */
  method BuildFeatureRow<F>(f: DerivedFeatures<F>, category: string, country: string, cluster: int,
                            encoded: seq<(string, F)>, manifest: seq<string>)
    returns (r: Result<Row<F>>)
    ensures r == FeatureRow(f, category, country, cluster, encoded, manifest)
  {
    var dfNew := new DataFrame(RequestRow(f, category, country));
    dfNew.SetItem(ClusterColumn, Int(cluster));
    var kept := Drop(dfNew.columns, Dropped);
    if kept.Failure? {
      return Failure(kept.error);
    }
    var xReg := new DataFrame(kept.value + EncodedColumns(encoded));
    ZeroFill(xReg, manifest);
    r := Select(xReg.columns, manifest);
  }

  const SuccessLabel: string := "successful"

  datatype Verdict = WillSucceed | WillFail

  /** Line 128: success exactly when the classifier's first label is the
      string "successful". */
  function VerdictOf(predictedLabel: string): (v: Verdict)
    ensures v == WillSucceed <==> predictedLabel == SuccessLabel
    ensures v == WillFail <==> predictedLabel != SuccessLabel
  {
    if predictedLabel == SuccessLabel then WillSucceed else WillFail
  }

  /** An illustration of `VerdictOf`'s contract on four labels: the
      comparison is exact, with no case folding and no trimming. */
  lemma VerdictIsExact()
    ensures VerdictOf("successful") == WillSucceed
    ensures VerdictOf("Successful") == WillFail
    ensures VerdictOf("successful ") == WillFail
    ensures VerdictOf("failed") == WillFail
  {
  }
}
