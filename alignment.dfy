/**
 * Feature alignment: the regression model was trained on the columns of the
 * `regression_columns` manifest, in that order. The handler first adds a
 * zero column for every manifest name the current row lacks, then selects
 * exactly the manifest's columns in manifest order.
 */
module Alignment {
  import opened Frames

  /** The row after the zero-fill loop has visited every name of manifest,
      left to right: a name is added, with the integer 0, only when the row
      does not have it yet. */
  function ZeroFilled<F>(row: Row<F>, manifest: seq<string>): Row<F>
    decreases |manifest|
  {
    if manifest == [] then row
    else
      var before := ZeroFilled(row, manifest[..|manifest| - 1]);
      var col := manifest[|manifest| - 1];
      if col in Names(before) then before else Assign(before, col, Int(0))
  }

  /** The zero-fill loop, updating the frame in place. */
  method ZeroFill<F>(frame: DataFrame<F>, manifest: seq<string>)
    modifies frame
    ensures frame.columns == ZeroFilled(old(frame.columns), manifest)
  {
    for k := 0 to |manifest|
      invariant frame.columns == ZeroFilled(old(frame.columns), manifest[..k])
    {
      var col := manifest[k];
      assert manifest[..k + 1][..k] == manifest[..k];
      if !frame.Has(col) {
        frame.SetItem(col, Int(0));
      }
    }
    assert manifest[..|manifest|] == manifest;
  }

  /** Zero-filling only appends: the original columns stay in front with
      their values and order, and every appended column is a zero named by
      the manifest and absent from the original row. */
  lemma {:induction false} ZeroFilledAppends<F>(row: Row<F>, manifest: seq<string>)
    ensures |ZeroFilled(row, manifest)| >= |row|
    ensures ZeroFilled(row, manifest)[..|row|] == row
    ensures forall i :: |row| <= i < |ZeroFilled(row, manifest)| ==>
              ZeroFilled(row, manifest)[i].value == Int(0) &&
              ZeroFilled(row, manifest)[i].name in manifest &&
              ZeroFilled(row, manifest)[i].name !in Names(row)
    decreases |manifest|
  {
    if manifest != [] {
      var init := manifest[..|manifest| - 1];
      ZeroFilledAppends(row, init);
      assert forall n :: n in init ==> n in manifest;
      var before := ZeroFilled(row, init);
      assert forall j :: 0 <= j < |row| ==> Names(row)[j] == Names(before)[j];
    }
  }

  /** After zero-filling every manifest name is a column. */
  lemma {:induction false} ZeroFilledCovers<F>(row: Row<F>, manifest: seq<string>)
    ensures forall n :: n in manifest ==> n in Names(ZeroFilled(row, manifest))
    decreases |manifest|
  {
    if manifest != [] {
      var init := manifest[..|manifest| - 1];
      var before := ZeroFilled(row, init);
      var col := manifest[|manifest| - 1];
      ZeroFilledCovers(row, init);
      var after := ZeroFilled(row, manifest);
      if col !in Names(before) {
        assert after == before + [Column(col, Int(0))];
        NamesAppend(before, [Column(col, Int(0))]);
        assert Names(after)[|before|] == col;
      }
      assert forall n :: n in Names(before) ==> n in Names(after);
      assert manifest == init + [col];
    }
  }

  /** Zero-filling never introduces a duplicate name. */
  lemma {:induction false} ZeroFilledDistinct<F>(row: Row<F>, manifest: seq<string>)
    requires Distinct(Names(row))
    ensures Distinct(Names(ZeroFilled(row, manifest)))
    decreases |manifest|
  {
    if manifest != [] {
      var init := manifest[..|manifest| - 1];
      var before := ZeroFilled(row, init);
      var col := manifest[|manifest| - 1];
      ZeroFilledDistinct(row, init);
      if col !in Names(before) {
        NamesAppend(before, [Column(col, Int(0))]);
      }
    }
  }

  /** A row that already has every manifest name is left as it is. */
  lemma {:induction false} ZeroFilledNoop<F>(row: Row<F>, manifest: seq<string>)
    requires forall n :: n in manifest ==> n in Names(row)
    ensures ZeroFilled(row, manifest) == row
    decreases |manifest|
  {
    if manifest != [] {
      var init := manifest[..|manifest| - 1];
      assert forall n :: n in init ==> n in manifest;
      ZeroFilledNoop(row, init);
    }
  }

  /** On a row with distinct names, after zero-filling a manifest name reads
      as its original value when the row had it, and as 0 otherwise. */
  lemma ZeroFilledLookup<F>(row: Row<F>, manifest: seq<string>, n: string)
    requires Distinct(Names(row))
    requires n in manifest
    ensures n in Names(ZeroFilled(row, manifest))
    ensures Lookup(ZeroFilled(row, manifest), n) ==
            if n in Names(row) then Lookup(row, n) else Int(0)
  {
    var filled := ZeroFilled(row, manifest);
    ZeroFilledAppends(row, manifest);
    ZeroFilledCovers(row, manifest);
    ZeroFilledDistinct(row, manifest);
    if n in Names(row) {
      var i := IndexOf(Names(row), n);
      assert filled[i] == filled[..|row|][i] == row[i];
      LookupAt(filled, i);
    } else {
      assert forall j :: 0 <= j < |row| ==> filled[j] == filled[..|row|][j] == row[j];
      assert forall j :: 0 <= j < |row| ==> Names(filled)[j] == Names(row)[j];
    }
  }

  /** Lines 116-119: zero-fill, then `X_reg[regression_columns]`. */
  function Aligned<F>(row: Row<F>, manifest: seq<string>): Result<Row<F>>
  {
    Select(ZeroFilled(row, manifest), manifest)
  }

  /** The selection after zero-filling never raises KeyError, whatever row
      and manifest are given. */
  lemma AlignedNeverFails<F>(row: Row<F>, manifest: seq<string>)
    ensures Aligned(row, manifest).Success?
  {
    ZeroFilledCovers(row, manifest);
    SelectSucceedsIff(ZeroFilled(row, manifest), manifest);
  }

  /** Columns whose names are not in the manifest are dropped, whatever the
      row holds. */
  lemma AlignedDropsExtras<F>(row: Row<F>, manifest: seq<string>)
    ensures Aligned(row, manifest).Success?
    ensures forall c :: c in Aligned(row, manifest).value ==> c.name in manifest
  {
    AlignedNeverFails(row, manifest);
    GatherNames(ZeroFilled(row, manifest), manifest);
  }

  /** The aligned row has exactly the manifest's names, in manifest order;
      a manifest name the row had keeps its value and one it lacked is 0. */
  lemma AlignedSpec<F>(row: Row<F>, manifest: seq<string>)
    requires Distinct(Names(row))
    ensures Aligned(row, manifest).Success?
    ensures |Aligned(row, manifest).value| == |manifest|
    ensures Names(Aligned(row, manifest).value) == manifest
    ensures forall i :: 0 <= i < |manifest| ==>
              Aligned(row, manifest).value[i].value ==
              if manifest[i] in Names(row) then Lookup(row, manifest[i]) else Int(0)
  {
    var filled := ZeroFilled(row, manifest);
    AlignedNeverFails(row, manifest);
    ZeroFilledCovers(row, manifest);
    ZeroFilledDistinct(row, manifest);
    GatherDistinct(filled, manifest);
    var r := Aligned(row, manifest).value;
    forall i | 0 <= i < |manifest|
      ensures r[i].value == if manifest[i] in Names(row) then Lookup(row, manifest[i]) else Int(0)
    {
      ZeroFilledLookup(row, manifest, manifest[i]);
    }
  }

  /** Aligning an aligned row again with the same manifest changes nothing,
      whatever the row holds, duplicate names included. */
  lemma AlignedIdempotent<F>(row: Row<F>, manifest: seq<string>)
    requires Distinct(manifest)
    ensures Aligned(row, manifest).Success?
    ensures Aligned(Aligned(row, manifest).value, manifest) == Aligned(row, manifest)
  {
    var filled := ZeroFilled(row, manifest);
    AlignedNeverFails(row, manifest);
    ZeroFilledCovers(row, manifest);
    var r := Aligned(row, manifest).value;
    assert r == Gather(filled, manifest);
    forall l | l in manifest
      ensures l in Names(r)
    {
      MatchingPresent(filled, l);
      MatchingGather(filled, manifest, l);
      MatchingPresent(r, l);
    }
    ZeroFilledNoop(r, manifest);
    SelectSucceedsIff(r, manifest);
    GatherGather(filled, manifest, manifest);
  }
}
