# Kickstarter success predictor: feature-row assembly and alignment

The predictor's request handler turns a campaign's inputs into one feature
row for a pledge-regression model, then reads a success classifier's label.
The one piece of data-flow logic in it is how that row is assembled:

1. `df_new` holds the three log-scaled numeric features
   `log_usd_goal_real`, `log_backers`, `log_duration(Days)` and the
   categorical inputs `main_category` and `country`; the cluster label is
   then written into it as column `cluster`.
2. `cluster`, `main_category` and `country` are dropped, and the one-hot
   encoder's named indicator columns are appended: this is `X_reg`.
3. For every name of the `regression_columns` manifest that `X_reg` lacks,
   a column holding 0 is added to `X_reg` in place.
4. `X_reg` becomes exactly the manifest's columns, in manifest order.

Around it sit the duration (`(deadline - launched).days`, not validated)
and the verdict (success exactly when the classifier's label is the
string `"successful"`).

The Dafny model has three modules:

- `Frames` (`frames.dfy`): a one-row pandas DataFrame as a sequence of
  named columns with opaque values (`Value<F>`: a float payload `F`, an
  integer or a string). It defines the pandas operations the handler uses:
  item assignment `frame[name] = v` (`Assign`, and the in-place
  `DataFrame.SetItem`), `drop(columns=...)` (`Drop`), and selection of a
  list of labels `frame[labels]` (`Select`). `Drop` and `Select` raise
  `KeyError` (a `Failure` result) when a label is not a column, as pandas
  does. Selection on a frame with duplicate names gathers every matching
  column per label, also as pandas does.
- `Alignment` (`alignment.dfy`): the zero-fill loop as a method updating a
  `DataFrame` in place (`ZeroFill`), its specification function
  (`ZeroFilled`), and alignment (`Aligned`: zero-fill, then select).
- `Predictor` (`predictor.dfy`): dates as day numbers and the duration,
  the pre-alignment row (`PreAlignmentRow`), the whole feature row
  (`FeatureRow`) and the same steps run on `DataFrame` objects
  (`BuildFeatureRow`), and the verdict (`VerdictOf`).

The cluster label, the encoder's output and the classifier's label are
inputs. The encoder's output is a sequence of (feature name, value) pairs
in encoder order.

The handler does not check the duration itself, and neither does the
model. A deadline on the launch day gives a duration of 0, which goes
through. A duration of -1 or less makes `np.log1p` return -inf or NaN, and
the clustering call that follows then fails. That call is not part of this
model.

## Model

| member | source | states |
|---|---|---|
| Alignment.ZeroFill | sk_project_st.py:116-118 | the loop updates the frame in place to exactly `ZeroFilled` of its old columns over the whole manifest; the invariant ties each iteration to the manifest prefix visited so far |
| Alignment.ZeroFilledAppends | sk_project_st.py:116-118 | zero-filling only appends: the original columns stay in front with their values and order, and every appended column holds 0, is named by the manifest and was absent from the row |
| Alignment.ZeroFilledCovers | sk_project_st.py:116-118 | after the loop every manifest name is a column of the frame |
| Alignment.ZeroFilledDistinct | sk_project_st.py:116-118 | the loop never creates a duplicate column name (it adds a name only when absent) |
| Alignment.ZeroFilledNoop | sk_project_st.py:116-118 | a frame that already has every manifest name is left unchanged |
| Alignment.ZeroFilledLookup | sk_project_st.py:116-118 | after the loop a manifest name reads as its original value if the row had it, and as 0 otherwise |
| Alignment.AlignedNeverFails | sk_project_st.py:116-119 | the selection after zero-filling never raises KeyError, for any row and manifest |
| Alignment.AlignedDropsExtras | sk_project_st.py:119 | every column of the aligned row is named by the manifest; extra columns are dropped, whatever the row holds |
| Alignment.AlignedSpec | sk_project_st.py:116-119 | the aligned row has exactly the manifest's names in manifest order, so its length is the manifest's; present names keep their values and missing ones are 0 |
| Alignment.AlignedIdempotent | sk_project_st.py:116-119 | aligning an aligned row again with the same manifest returns it unchanged, for any row (duplicate names included) and any manifest without repeated names |
| Frames.SelectSucceedsIff | sk_project_st.py:119 | `frame[labels]` succeeds exactly when every label is a column; on failure the KeyError names exactly the labels that are not columns |
| Frames.GatherNames | sk_project_st.py:119 | a selection holds only columns the labels name |
| Frames.MatchingGather | sk_project_st.py:119 | selecting one name from a selection by distinct labels finds the columns the frame has under that name if it is a label, and none otherwise |
| Frames.GatherGather | sk_project_st.py:119 | selecting again, by labels of a first selection by distinct labels, is the same as selecting them from the original frame |
| Frames.GatherDistinct | sk_project_st.py:119 | on a frame with distinct names, selecting present labels gives one column per label, in label order, carrying that column's value |
| Frames.AssignName | sk_project_st.py:110 | after `frame[name] = v` the name reads as v; the column index is unchanged or grows by `name` at the end, so distinct names stay distinct |
| Frames.AssignOther | sk_project_st.py:110 | `frame[name] = v` leaves the value of every other column as it was |
| Frames.DataFrame.SetItem | sk_project_st.py:110 | item assignment updates the frame's columns in place to `Assign` of the old columns |
| Frames.KeepContents | sk_project_st.py:114 | `drop(columns=...)` keeps exactly the columns whose names are not dropped labels |
| Frames.KeepAppend | sk_project_st.py:114 | dropping distributes over concatenation, so the kept columns stay in their order |
| Predictor.DurationDays | sk_project_st.py:96 | adding the duration to the launch day number gives the deadline day number |
| Predictor.DurationSign | sk_project_st.py:96 | the duration is positive, zero or negative exactly as the deadline is after, on or before the launch day; swapping the dates negates it |
| Predictor.DropAfterCluster | sk_project_st.py:101-114 | writing the cluster column and then dropping `cluster`, `main_category` and `country` never fails and leaves exactly the three numeric columns |
| Predictor.PreAlignmentRowShape | sk_project_st.py:101-114 | the pre-alignment row is the three numeric columns followed by the encoded columns in encoder order, and has none of the dropped names unless the encoder emits one |
| Predictor.PreAlignmentDistinct | sk_project_st.py:101-114 | the pre-alignment row has distinct names when the encoder's names are distinct and differ from the numeric ones |
| Predictor.PreAlignmentLookup | sk_project_st.py:101-114 | a name read from the pre-alignment row gives its numeric feature or its encoder value; a name the row lacks is expected to be 0 |
| Predictor.FeatureRowSpec | sk_project_st.py:101-119 | the feature row always exists, has exactly the manifest's names in order, and holds for each name its numeric feature, its encoder value, or 0 |
| Predictor.ShapeIsRequestIndependent | sk_project_st.py:109-119 | two requests with any category, country, cluster and encoder output give feature rows with the same column names, of the manifest's length |
| Predictor.BuildFeatureRow | sk_project_st.py:101-119 | the handler's steps on mutable frames (build `df_new`, set `cluster`, drop and concatenate, zero-fill in place, select) produce exactly `FeatureRow` |
| Predictor.VerdictOf | sk_project_st.py:128 | the verdict is success if and only if the predicted label equals `"successful"` |
| Predictor.VerdictIsExact | sk_project_st.py:128 | illustrates `VerdictOf`'s contract on four labels: `"Successful"`, `"successful "` and `"failed"` all give failure, so the comparison neither folds case nor trims |
| Frames.Assign | sk_project_st.py:110 | `frame[name] = v` (also the zero write at line 118): replaces the value of every column with that name, or appends a new column at the right; no contract of its own, characterised by `AssignName` and `AssignOther` |
| Frames.Drop | sk_project_st.py:114 | `drop(columns=...)`: a KeyError `Failure` listing the labels that are not columns, else `Keep`; no contract of its own, characterised by `KeepContents`, `KeepAppend` and `DropAfterCluster` |
| Frames.Select | sk_project_st.py:119 | `frame[labels]`: a KeyError `Failure` listing the labels that are not columns, else every column matching each label in label order; no contract of its own, characterised by `SelectSucceedsIff`, `GatherNames`, `MatchingGather`, `GatherGather` and `GatherDistinct` |
| Frames.DataFrame.Has | sk_project_st.py:117 | `col in X_reg.columns` on the frame's current columns; no contract of its own, used by `ZeroFill`'s loop |
| Frames.DataFrame.constructor | sk_project_st.py:101-114 | a new frame holds exactly the given columns (`df_new`, and `X_reg` from the concatenation) |
| Alignment.ZeroFilled | sk_project_st.py:116-118 | the frame after the loop has visited the whole manifest; no contract of its own, characterised by `ZeroFilledAppends`, `ZeroFilledCovers`, `ZeroFilledDistinct`, `ZeroFilledNoop` and `ZeroFilledLookup`, and proved equal to `ZeroFill`'s effect |
| Alignment.Aligned | sk_project_st.py:116-119 | zero-fill, then select the manifest; no contract of its own, characterised by `AlignedNeverFails`, `AlignedDropsExtras`, `AlignedSpec` and `AlignedIdempotent` |
| Predictor.RequestRow | sk_project_st.py:101-107 | `df_new`: the three numeric features, then `main_category` and `country`; no contract of its own, characterised by `DropAfterCluster` |
| Predictor.EncodedColumns | sk_project_st.py:113 | the encoder's output as a frame, one column per feature name in encoder order; no contract of its own, characterised by `PreAlignmentRowShape` and `PreAlignmentLookup` |
| Predictor.PreAlignmentRow | sk_project_st.py:101-114 | `X_reg` before zero-filling; no contract of its own, characterised by `PreAlignmentRowShape`, `PreAlignmentDistinct` and `PreAlignmentLookup` |
| Predictor.FeatureRow | sk_project_st.py:101-119 | the row handed to the regression scaler; no contract of its own, characterised by `FeatureRowSpec` and `ShapeIsRequestIndependent`, and proved equal to `BuildFeatureRow`'s result |

## Left out

- The Streamlit page is not modelled: its styling, title card, input widgets, button and result rendering (lines 1-65, 76-93, 130-136). It is presentation and I/O.
- Loading the seven artifacts with `joblib.load` (lines 68-74) is file I/O and deserialisation. The manifest is a `seq<string>` parameter and the encoder's output is a parameter.
- `np.log1p` and `np.expm1` (lines 97-99, 123) are floating point. The log-scaled features are opaque values of type `F`, and the effect of a duration of -1 or less on the logarithm is not modelled.
- The fitted models are foreign library code: k-means `predict`, the encoder's `transform` and `get_feature_names_out`, both scalers, both models' `predict` and `np.hstack` (lines 109, 112-113, 121-127). Their results enter as parameters: the cluster label, the named encoder columns and the classifier's label, which `VerdictOf` reads as `pred_state[0]`.
- The catch-all `except` that shows an error message (lines 138-139) is UI error reporting. The KeyError paths of `drop` and of the selection are modelled as `Failure` results and proved never to arise here.
- The category and country literal lists (lines 82-90) are only opaque strings passed through, including the odd country literal `'N,0"'`.
- Frames hold one sample only, as every frame in the handler does. `reset_index(drop=True)` is therefore the identity, and the concatenation along columns is sequence concatenation. Column dtypes are not modelled: the zero written by the loop is the integer 0, as in the code.
- Alignment.AlignedSpec: requires the pre-alignment row's names to be distinct. With duplicate names pandas would select every duplicate, and the row would be longer than the manifest. `AlignedNeverFails` and `AlignedDropsExtras` hold without this.
- Alignment.AlignedIdempotent: requires the manifest's names to be distinct, as training columns are. With a repeated manifest name each re-alignment would duplicate that column again. It does not require the row's names to be distinct.
- Predictor.FeatureRowSpec: requires the encoder's feature names to be distinct and different from the three numeric names (`EncodingFits`). This is what `get_feature_names_out` yields for these inputs, but its code is not part of this model.
- Predictor.ShapeIsRequestIndependent: requires `EncodingFits` of both encoder outputs, for the same reason.
