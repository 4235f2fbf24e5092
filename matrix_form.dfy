/**
 * The column-list editor of the matrix form component: an ordered list of
 * column definitions that the user can extend with default rows and from
 * which every row marked as selected can be deleted in one sweep.
 *
 * The form array that holds the rows is modelled as a sequence of `Row`
 * values owned by the component; `push` appends, `removeAt` removes one
 * index and shifts the rest down.
 */
module MatrixForm {

  /* The three option lists of the component, in the order in which the
     source lists them. Each constructor is named after the option's text. */
  datatype ColumnType = Text | Number | Date
  datatype FilledBy = User | System
  datatype DataType = String | Integer | Boolean

  const ColumnTypes: seq<ColumnType> := [Text, Number, Date]
  const FilledByOptions: seq<FilledBy> := [User, System]
  const DataTypes: seq<DataType> := [String, Integer, Boolean]

  /** One column definition: one group of six form controls. */
  datatype Row = Row(
    selected: bool,
    header: string,
    columnType: ColumnType,
    filledBy: FilledBy,
    dataType: DataType,
    display: string
  )

  /** The row a new column starts as: unselected, empty texts, and the
      first option of each option list. */
  function CreateColumn(): (r: Row)
    ensures !r.selected && r.header == "" && r.display == ""
    ensures r.columnType == ColumnTypes[0]
    ensures r.filledBy == FilledByOptions[0]
    ensures r.dataType == DataTypes[0]
  {
    Row(false, "", ColumnTypes[0], FilledByOptions[0], DataTypes[0], "")
  }

  /** True when every row of `s` is marked as selected. */
  ghost predicate AllSelected(s: seq<Row>) {
    forall k :: 0 <= k < |s| ==> s[k].selected
  }

  /** True when no row of `s` is marked as selected. */
  ghost predicate NoneSelected(s: seq<Row>) {
    forall k :: 0 <= k < |s| ==> !s[k].selected
  }

  /** The rows of `s` that are not selected, in their original order:
      the specification of the delete operation. */
  function Unselected(s: seq<Row>): (r: seq<Row>)
    ensures |r| <= |s|
    ensures NoneSelected(r)
    ensures forall x :: x in r ==> x in s
  {
    if s == [] then []
    else (if s[0].selected then [] else [s[0]]) + Unselected(s[1..])
  }

  /** The number of selected rows of `s`. */
  function SelectedCount(s: seq<Row>): nat {
    if s == [] then 0
    else (if s[0].selected then 1 else 0) + SelectedCount(s[1..])
  }

  /** The indices `lo`, `lo + 1`, ... of `s` whose rows are not selected,
      in increasing order. */
  function KeptFrom(s: seq<Row>, lo: nat): seq<nat>
    decreases |s| - lo
  {
    if lo >= |s| then []
    else (if s[lo].selected then [] else [lo]) + KeptFrom(s, lo + 1)
  }

  /** The indices of `s` whose rows survive the delete operation. */
  function KeptIndices(s: seq<Row>): seq<nat> {
    KeptFrom(s, 0)
  }

  /** Unselected distributes over concatenation: filtering a list is
      filtering each part of it. */
  lemma {:induction false} UnselectedAppend(a: seq<Row>, b: seq<Row>)
    ensures Unselected(a + b) == Unselected(a) + Unselected(b)
  {
    if a == [] {
      assert a + b == b;
    } else {
      assert (a + b)[0] == a[0];
      assert (a + b)[1..] == a[1..] + b;
      UnselectedAppend(a[1..], b);
    }
  }

  /** One step of the descending scan: filtering the suffix from `i` is
      filtering the row at `i` and then the suffix beyond it. */
  lemma UnselectedStep(s: seq<Row>, i: nat)
    requires i < |s|
    ensures Unselected(s[i..]) == Unselected([s[i]]) + Unselected(s[i + 1..])
    ensures Unselected([s[i]]) == if s[i].selected then [] else [s[i]]
  {
    assert s[i..] == [s[i]] + s[i + 1..];
    assert [s[i]][1..] == [];
    UnselectedAppend([s[i]], s[i + 1..]);
  }

  /** A row survives exactly when it was in the list and is not selected. */
  lemma {:induction false} UnselectedMembership(s: seq<Row>, x: Row)
    ensures x in Unselected(s) <==> x in s && !x.selected
  {
    if s != [] {
      UnselectedMembership(s[1..], x);
      assert s == [s[0]] + s[1..];
    }
  }

  /** The length shrinks by exactly the number of selected rows. */
  lemma {:induction false} UnselectedLength(s: seq<Row>)
    ensures |Unselected(s)| == |s| - SelectedCount(s)
  {
    if s != [] {
      UnselectedLength(s[1..]);
    }
  }

  /** With no row selected the delete operation is a no-op. */
  lemma {:induction false} UnselectedNoneSelected(s: seq<Row>)
    requires NoneSelected(s)
    ensures Unselected(s) == s
  {
    if s != [] {
      assert NoneSelected(s[1..]) by {
        forall k | 0 <= k < |s[1..]| ensures !s[1..][k].selected {
          assert s[1..][k] == s[k + 1];
        }
      }
      UnselectedNoneSelected(s[1..]);
      assert s == [s[0]] + s[1..];
    }
  }

  /** With every row selected the delete operation empties the list. */
  lemma {:induction false} UnselectedAllSelected(s: seq<Row>)
    requires AllSelected(s)
    ensures Unselected(s) == []
  {
    if s != [] {
      assert AllSelected(s[1..]) by {
        forall k | 0 <= k < |s[1..]| ensures s[1..][k].selected {
          assert s[1..][k] == s[k + 1];
        }
      }
      UnselectedAllSelected(s[1..]);
    }
  }

  /** Deleting the selected rows a second time changes nothing. */
  lemma UnselectedIdempotent(s: seq<Row>)
    ensures Unselected(Unselected(s)) == Unselected(s)
  {
    UnselectedNoneSelected(Unselected(s));
  }

  /** The surviving indices from `lo` on are increasing, in range, exactly
      the unselected ones, and pick out the filter of the suffix. */
  lemma {:induction false} KeptFromIndexes(s: seq<Row>, lo: nat)
    requires lo <= |s|
    ensures var idx, r := KeptFrom(s, lo), Unselected(s[lo..]);
      |idx| == |r| &&
      (forall k :: 0 <= k < |idx| ==> lo <= idx[k] < |s| && s[idx[k]] == r[k]) &&
      (forall k, m :: 0 <= k < m < |idx| ==> idx[k] < idx[m]) &&
      (forall i: nat :: i in idx <==> lo <= i < |s| && !s[i].selected)
    decreases |s| - lo
  {
    if lo < |s| {
      KeptFromIndexes(s, lo + 1);
      assert s[lo..][0] == s[lo];
      assert s[lo..][1..] == s[lo + 1..];
    }
  }

  /** The delete operation keeps the surviving rows in their relative order
      and with their field values: the k-th surviving row is the row at the
      k-th unselected index, and those indices are increasing. */
  lemma UnselectedKeepsOrder(s: seq<Row>)
    ensures var idx, r := KeptIndices(s), Unselected(s);
      |idx| == |r| &&
      (forall k :: 0 <= k < |idx| ==> idx[k] < |s| && s[idx[k]] == r[k]) &&
      (forall k, m :: 0 <= k < m < |idx| ==> idx[k] < idx[m]) &&
      (forall i: nat :: i in idx <==> i < |s| && !s[i].selected)
  {
    KeptFromIndexes(s, 0);
    assert s[0..] == s;
  }

  /** Rows at positions 0 and 2 of three selected: only the middle row
      remains, unchanged. */
  lemma DeleteFirstAndLast(a: Row, b: Row, c: Row)
    requires a.selected && !b.selected && c.selected
    ensures Unselected([a, b, c]) == [b]
  {
    assert [a, b, c][1..] == [b, c];
    assert [b, c][1..] == [c];
    assert [c][1..] == [];
    assert Unselected([c]) == [];
  }

  /** The component: it owns the list of column rows. */
  class TestComponent {
    var columns: seq<Row>

    /** The list starts with two default columns. */
    constructor ()
      ensures columns == [CreateColumn(), CreateColumn()]
    {
      columns := [];
      new;
      AddColumn();
      AddColumn();
    }

    /** The form array's `push`: append one row at the end. */
    method Push(r: Row)
      modifies this
      ensures columns == old(columns) + [r]
    {
      columns := columns + [r];
    }

    /** The form array's `removeAt`: drop index `i`; every later row moves
        down one place and every earlier row keeps its index. */
    method RemoveAt(i: nat)
      requires i < |columns|
      modifies this
      ensures columns == old(columns[..i]) + old(columns[i + 1..])
      ensures |columns| == old(|columns|) - 1
      ensures forall k :: 0 <= k < i ==> columns[k] == old(columns[k])
    {
      columns := columns[..i] + columns[i + 1..];
    }

    /** Append one default column; the earlier rows are unchanged. */
    method AddColumn()
      modifies this
      ensures columns == old(columns) + [CreateColumn()]
      ensures |columns| == old(|columns|) + 1
      ensures columns[|columns| - 1] == CreateColumn()
      ensures forall k :: 0 <= k < old(|columns|) ==> columns[k] == old(columns[k])
    {
      Push(CreateColumn());
    }

    /** Remove every selected row, scanning from the last index down to 0
        so that a removal never shifts an index still to be visited. */
    method DeleteSelectedColumns()
      modifies this
      ensures columns == Unselected(old(columns))
      ensures NoneSelected(columns)
      ensures |columns| == |old(columns)| - SelectedCount(old(columns))
    {
      ghost var orig := columns;
      var i := |columns| - 1;
      while i >= 0
        invariant -1 <= i < |orig|
        invariant columns == orig[..i + 1] + Unselected(orig[i + 1..])
        decreases i
      {
        assert columns[i] == orig[i];
        UnselectedStep(orig, i);
        if columns[i].selected {
          RemoveAt(i);
          assert orig[..i + 1][..i] == orig[..i];
        } else {
          assert orig[..i + 1] == orig[..i] + [orig[i]];
        }
        i := i - 1;
      }
      assert orig[0..] == orig;
      UnselectedLength(orig);
    }

    /** The submit handler: a snapshot of the current rows. Sequences are
        values, so later edits of the list cannot change the snapshot. */
    method OnSubmit() returns (snapshot: seq<Row>)
      ensures snapshot == columns
    {
      snapshot := columns;
    }
  }

  /** A snapshot taken on submit keeps its rows when a column is added
      afterwards. */
  method SubmitThenAdd(c: TestComponent) returns (snapshot: seq<Row>)
    modifies c
    ensures snapshot == old(c.columns)
    ensures c.columns == snapshot + [CreateColumn()]
  {
    snapshot := c.OnSubmit();
    c.AddColumn();
  }

  /** Two deletions in a row leave the list as the first one did. */
  method DeleteTwice(c: TestComponent)
    modifies c
    ensures c.columns == Unselected(old(c.columns))
  {
    c.DeleteSelectedColumns();
    ghost var once := c.columns;
    c.DeleteSelectedColumns();
    UnselectedIdempotent(old(c.columns));
    assert c.columns == once;
  }
}
