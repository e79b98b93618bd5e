/**
 * A one-row table with named columns, as the prediction handler uses pandas
 * DataFrames: every frame it builds holds exactly one sample, so a frame is
 * an ordered sequence of (name, value) columns. Column values are opaque:
 * no arithmetic is done on them here.
 */
module Frames {

  /** A cell: a floating-point payload (kept abstract as F), an integer
      (the cluster label, the zero written by zero-filling) or a string
      (the categorical inputs). */
  datatype Value<F> = Float(x: F) | Int(i: int) | Text(s: string)

  datatype Column<F> = Column(name: string, value: Value<F>)

  type Row<F> = seq<Column<F>>

  /** pandas raises KeyError naming the labels it could not find. */
  datatype KeyError = KeyError(missing: seq<string>)

  datatype Result<T> = Success(value: T) | Failure(error: KeyError)

  /** The frame's `columns` index, in order. */
  function Names<F>(row: Row<F>): seq<string>
  {
    seq(|row|, i requires 0 <= i < |row| => row[i].name)
  }

  ghost predicate Distinct(s: seq<string>) {
    forall i, j :: 0 <= i < j < |s| ==> s[i] != s[j]
  }

  lemma NamesAppend<F>(a: Row<F>, b: Row<F>)
    ensures Names(a + b) == Names(a) + Names(b)
  {
    assert forall i :: 0 <= i < |a + b| ==> Names(a + b)[i] == (Names(a) + Names(b))[i];
  }

  /** Position of the first occurrence of n in s. */
  function IndexOf(s: seq<string>, n: string): (k: nat)
    requires n in s
    ensures k < |s| && s[k] == n
    ensures forall j :: 0 <= j < k ==> s[j] != n
  {
    if s[0] == n then 0 else 1 + IndexOf(s[1..], n)
  }

  /** `frame[name]` for a name the frame has, on a frame with distinct
      names: the value of the column with that name. */
  function Lookup<F>(row: Row<F>, name: string): Value<F>
    requires name in Names(row)
  {
    row[IndexOf(Names(row), name)].value
  }

  /** When names are distinct, looking up the name of any column gives that
      column's value. */
  lemma LookupAt<F>(row: Row<F>, i: nat)
    requires Distinct(Names(row))
    requires i < |row|
    ensures row[i].name in Names(row)
    ensures Lookup(row, row[i].name) == row[i].value
  {
    assert Names(row)[i] == row[i].name;
    var k := IndexOf(Names(row), row[i].name);
    assert k <= i;
  }

  /** `frame[name] = v`: an existing column of that name gets the new value
      in place; otherwise a new column is appended at the right. */
  function Assign<F>(row: Row<F>, name: string, v: Value<F>): Row<F>
  {
    if name in Names(row) then
      seq(|row|, i requires 0 <= i < |row| => if row[i].name == name then Column(name, v) else row[i])
    else
      row + [Column(name, v)]
  }

  /** Reading a column back after writing it gives the written value; the
      index is unchanged or grows by the new name at the right, so distinct
      names stay distinct. */
  lemma AssignName<F>(row: Row<F>, name: string, v: Value<F>)
    ensures Names(Assign(row, name, v)) ==
            if name in Names(row) then Names(row) else Names(row) + [name]
    ensures name in Names(Assign(row, name, v)) && Lookup(Assign(row, name, v), name) == v
    ensures Distinct(Names(row)) ==> Distinct(Names(Assign(row, name, v)))
  {
  }

  /** Writing one column leaves the value of every other column as it was. */
  lemma AssignOther<F>(row: Row<F>, name: string, v: Value<F>, other: string)
    requires other != name && other in Names(row)
    ensures other in Names(Assign(row, name, v))
    ensures Lookup(Assign(row, name, v), other) == Lookup(row, other)
  {
    var r := Assign(row, name, v);
    var k := IndexOf(Names(row), other);
    if name in Names(row) {
      assert Names(r) == Names(row);
    } else {
      NamesAppend(row, [Column(name, v)]);
      assert Names(r) == Names(row) + [name];
    }
    assert IndexOf(Names(r), other) == k by {
      var j := IndexOf(Names(r), other);
      assert Names(r)[k] == other;
      assert j <= k;
      assert Names(row)[j] == Names(r)[j];
    }
    assert r[k] == row[k];
  }

  /** The columns of row whose names are not among labels, in order. */
  function Keep<F>(row: Row<F>, labels: seq<string>): Row<F>
  {
    if row == [] then []
    else (if row[0].name in labels then [] else [row[0]]) + Keep(row[1..], labels)
  }

  /** Dropping keeps exactly the columns whose names are not labels. */
  lemma {:induction false} KeepContents<F>(row: Row<F>, labels: seq<string>)
    ensures forall c :: c in Keep(row, labels) <==> c in row && c.name !in labels
  {
    if row != [] {
      KeepContents(row[1..], labels);
      assert row == [row[0]] + row[1..];
    }
  }

  lemma {:induction false} KeepAppend<F>(a: Row<F>, b: Row<F>, labels: seq<string>)
    ensures Keep(a + b, labels) == Keep(a, labels) + Keep(b, labels)
  {
    if a == [] {
      assert a + b == b;
    } else {
      assert (a + b)[1..] == a[1..] + b;
      KeepAppend(a[1..], b, labels);
    }
  }

  /** The labels of wanted that are not names of row, in order. */
  function Missing(names: seq<string>, wanted: seq<string>): (r: seq<string>)
    ensures r == [] <==> forall l :: l in wanted ==> l in names
    ensures forall l :: l in r <==> l in wanted && l !in names
  {
    if wanted == [] then []
    else (if wanted[0] in names then [] else [wanted[0]]) + Missing(names, wanted[1..])
  }

  /** `frame.drop(columns=labels)`: KeyError when a label is not a column,
      else the frame without every column named by a label. */
  function Drop<F>(row: Row<F>, labels: seq<string>): Result<Row<F>>
  {
    var absent := Missing(Names(row), labels);
    if absent == [] then Success(Keep(row, labels)) else Failure(KeyError(absent))
  }

  /** The columns of row named n, in order (more than one only when the
      frame has duplicate names). */
  function Matching<F>(row: Row<F>, n: string): Row<F>
  {
    if row == [] then []
    else (if row[0].name == n then [row[0]] else []) + Matching(row[1..], n)
  }

  /** The columns matched by each label in turn. */
  function Gather<F>(row: Row<F>, labels: seq<string>): Row<F>
  {
    if labels == [] then [] else Matching(row, labels[0]) + Gather(row, labels[1..])
  }

  /** `frame[labels]`: KeyError when a label is not a column, else the
      columns the labels name, in label order. */
  function Select<F>(row: Row<F>, labels: seq<string>): Result<Row<F>>
  {
    var absent := Missing(Names(row), labels);
    if absent == [] then Success(Gather(row, labels)) else Failure(KeyError(absent))
  }

  /** Selection fails exactly when some label is not a column. */
  lemma SelectSucceedsIff<F>(row: Row<F>, labels: seq<string>)
    ensures Select(row, labels).Success? <==> forall l :: l in labels ==> l in Names(row)
    ensures Select(row, labels).Failure? ==>
              forall l :: l in Select(row, labels).error.missing <==> l in labels && l !in Names(row)
  {
  }

  lemma {:induction false} MatchingNames<F>(row: Row<F>, n: string)
    ensures forall c :: c in Matching(row, n) ==> c.name == n
  {
    if row != [] {
      MatchingNames(row[1..], n);
    }
  }

  /** Whatever the frame, a selection holds only columns the labels name. */
  lemma {:induction false} GatherNames<F>(row: Row<F>, labels: seq<string>)
    ensures forall c :: c in Gather(row, labels) ==> c.name in labels
  {
    if labels != [] {
      MatchingNames(row, labels[0]);
      GatherNames(row, labels[1..]);
    }
  }

  lemma {:induction false} MatchingUnique<F>(row: Row<F>, n: string)
    requires Distinct(Names(row))
    requires n in Names(row)
    ensures Matching(row, n) == [Column(n, Lookup(row, n))]
  {
    var k := IndexOf(Names(row), n);
    LookupAt(row, k);
    assert forall i :: 0 <= i < |row| - 1 ==> Names(row[1..])[i] == Names(row)[i + 1];
    assert Distinct(Names(row[1..]));
    if k == 0 {
      assert forall i :: 0 <= i < |row| - 1 ==> Names(row[1..])[i] != Names(row)[0];
      MatchingAbsent(row[1..], n);
    } else {
      assert Names(row[1..])[k - 1] == n;
      MatchingUnique(row[1..], n);
      LookupAt(row[1..], k - 1);
    }
  }

  lemma {:induction false} MatchingAbsent<F>(row: Row<F>, n: string)
    requires n !in Names(row)
    ensures Matching(row, n) == []
  {
    if row != [] {
      assert Names(row)[0] == row[0].name;
      assert forall i :: 0 <= i < |row| - 1 ==> Names(row[1..])[i] == Names(row)[i + 1];
      MatchingAbsent(row[1..], n);
    }
  }

  /** Some column is named n exactly when n is in the index. */
  lemma {:induction false} MatchingPresent<F>(row: Row<F>, n: string)
    ensures Matching(row, n) != [] <==> n in Names(row)
  {
    if row != [] {
      MatchingPresent(row[1..], n);
      assert Names(row) == [row[0].name] + Names(row[1..]);
    }
  }

  lemma {:induction false} MatchingAppend<F>(a: Row<F>, b: Row<F>, n: string)
    ensures Matching(a + b, n) == Matching(a, n) + Matching(b, n)
  {
    if a == [] {
      assert a + b == b;
    } else {
      var head: Row<F> := if a[0].name == n then [a[0]] else [];
      assert (a + b)[0] == a[0];
      assert (a + b)[1..] == a[1..] + b;
      assert Matching(a + b, n) == head + Matching(a[1..] + b, n);
      MatchingAppend(a[1..], b, n);
      assert Matching(a, n) == head + Matching(a[1..], n);
    }
  }

  /** The columns named n among those named l: all of them when l is n,
      none otherwise. */
  lemma {:induction false} MatchingMatching<F>(row: Row<F>, l: string, n: string)
    ensures Matching(Matching(row, l), n) == if l == n then Matching(row, n) else []
  {
    if row != [] {
      MatchingMatching(row[1..], l, n);
      var head: Row<F> := if row[0].name == l then [row[0]] else [];
      MatchingAppend(head, Matching(row[1..], l), n);
    }
  }

  /** Selecting n from a selection by distinct labels finds the columns the
      original frame has under n when n is a label, and nothing otherwise. */
  lemma {:induction false} MatchingGather<F>(row: Row<F>, labels: seq<string>, n: string)
    requires Distinct(labels)
    ensures Matching(Gather(row, labels), n) == if n in labels then Matching(row, n) else []
  {
    if labels != [] {
      MatchingAppend(Matching(row, labels[0]), Gather(row, labels[1..]), n);
      MatchingMatching(row, labels[0], n);
      assert Distinct(labels[1..]);
      MatchingGather(row, labels[1..], n);
      assert labels == [labels[0]] + labels[1..];
      if n == labels[0] {
        assert n !in labels[1..];
      }
    }
  }

  /** Selecting again, by labels of a first selection by distinct labels,
      is selecting them from the original frame. */
  lemma {:induction false} GatherGather<F>(row: Row<F>, labels: seq<string>, again: seq<string>)
    requires Distinct(labels)
    requires forall l :: l in again ==> l in labels
    ensures Gather(Gather(row, labels), again) == Gather(row, again)
  {
    if again != [] {
      MatchingGather(row, labels, again[0]);
      GatherGather(row, labels, again[1..]);
    }
  }

  /** On a frame with distinct names, selecting present labels gives one
      column per label, named by it and holding that column's value. */
  lemma {:induction false} GatherDistinct<F>(row: Row<F>, labels: seq<string>)
    requires Distinct(Names(row))
    requires forall l :: l in labels ==> l in Names(row)
    ensures |Gather(row, labels)| == |labels|
    ensures forall i :: 0 <= i < |labels| ==>
              Gather(row, labels)[i] == Column(labels[i], Lookup(row, labels[i]))
  {
    if labels != [] {
      MatchingUnique(row, labels[0]);
      GatherDistinct(row, labels[1..]);
      var g := Gather(row, labels);
      assert g == [Column(labels[0], Lookup(row, labels[0]))] + Gather(row, labels[1..]);
      forall i | 0 < i < |labels|
        ensures g[i] == Column(labels[i], Lookup(row, labels[i]))
      {
        assert g[i] == Gather(row, labels[1..])[i - 1];
        assert labels[1..][i - 1] == labels[i];
      }
    }
  }

  /** A pandas DataFrame holding one sample; it is updated in place by
      item assignment. */
  class DataFrame<F> {
    var columns: Row<F>

    constructor (columns: Row<F>)
      ensures this.columns == columns
    {
      this.columns := columns;
    }

    /** `name in frame.columns` */
    predicate Has(name: string)
      reads this
    {
      name in Names(columns)
    }

    /** `frame[name] = v` */
    method SetItem(name: string, v: Value<F>)
      modifies this
      ensures columns == Assign(old(columns), name, v)
    {
      columns := Assign(columns, name, v);
    }
  }
}
