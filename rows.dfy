/** The package list as the window shows it: one row per catalog entry, each a check button
    with a label, a check state and a visibility. These functions describe, row by row, what
    building the list, typing in the search entry and clicking Install do to the rows; the
    class in PackageList runs the same steps in place. */
module Rows {
  import opened Text

  /** A list-box row holding one check button. */
  datatype Row = Row(name: string, active: bool, visible: bool)

  /** The installer program and the flag that precedes the package names. */
  const Installer: string := "pacstall"
  const InstallFlag: string := "-PI"

  /** A request to run `program` with `args`. */
  datatype Invocation = Invocation(program: string, args: seq<string>)

  /** The package list text split into catalog entries: one per newline-separated piece,
      in order, with empty pieces and duplicates kept. */
  function Catalog(raw: string): (entries: seq<string>)
    ensures |entries| == Count(raw, '\n') + 1
    ensures forall k :: 0 <= k < |entries| ==> '\n' !in entries[k]
    ensures Join(entries, '\n') == raw
  {
    SplitJoin(raw, '\n');
    Split(raw, '\n')
  }

  /** The rows created for `packages`: one per name, in order, labelled with the name,
      unchecked, and shown (the window shows all its children once built). */
  function NewRows(packages: seq<string>): (rows: seq<Row>)
    ensures |rows| == |packages|
    ensures forall i :: 0 <= i < |rows| ==> rows[i] == Row(packages[i], false, true)
  {
    if packages == [] then [] else [Row(packages[0], false, true)] + NewRows(packages[1..])
  }

  /** The rows described by three parallel sequences of labels, check states and
      visibilities. */
  function Zip(names: seq<string>, checked: seq<bool>, shown: seq<bool>): (rows: seq<Row>)
    requires |names| == |checked| == |shown|
    ensures |rows| == |names|
    ensures forall i :: 0 <= i < |rows| ==> rows[i] == Row(names[i], checked[i], shown[i])
  {
    if names == [] then []
    else [Row(names[0], checked[0], shown[0])] + Zip(names[1..], checked[1..], shown[1..])
  }

  /** The labels of the rows, in row order. */
  function Labels(rows: seq<Row>): (labels: seq<string>)
    ensures |labels| == |rows|
    ensures forall i :: 0 <= i < |rows| ==> labels[i] == rows[i].name
  {
    if rows == [] then [] else [rows[0].name] + Labels(rows[1..])
  }

  /** The rows after the search text changed to `query`: each row is shown exactly when its
      label contains `query`; labels and check states stay as they were. */
  function Search(rows: seq<Row>, query: string): (r: seq<Row>)
    ensures |r| == |rows|
    ensures forall i :: 0 <= i < |rows| ==>
              r[i].name == rows[i].name && r[i].active == rows[i].active
    ensures forall i :: 0 <= i < |rows| ==> (r[i].visible <==> Contains(rows[i].name, query))
  {
    if rows == [] then []
    else [rows[0].(visible := Contains(rows[0].name, query))] + Search(rows[1..], query)
  }

  /** Number of checked rows. */
  function ActiveCount(rows: seq<Row>): nat {
    if rows == [] then 0 else (if rows[0].active then 1 else 0) + ActiveCount(rows[1..])
  }

  /** The names handed to the installer: the labels of the checked rows, in row order,
      whether or not the row is currently shown. */
  function Collect(rows: seq<Row>): (names: seq<string>)
    ensures |names| == ActiveCount(rows)
  {
    if rows == [] then []
    else if rows[0].active then [rows[0].name] + Collect(rows[1..])
    else Collect(rows[1..])
  }

  /** A name is collected exactly when some checked row carries it. */
  lemma {:induction false} CollectMembers(rows: seq<Row>)
    ensures forall x :: x in Collect(rows) <==>
              exists i :: 0 <= i < |rows| && rows[i].active && rows[i].name == x
  {
    if rows != [] {
      CollectMembers(rows[1..]);
      forall x | x in Collect(rows)
        ensures exists i :: 0 <= i < |rows| && rows[i].active && rows[i].name == x
      {
        if !(rows[0].active && rows[0].name == x) {
          assert x in Collect(rows[1..]);
          var j :| 0 <= j < |rows[1..]| && rows[1..][j].active && rows[1..][j].name == x;
          assert rows[j + 1] == rows[1..][j];
        }
      }
      forall x | exists i :: 0 <= i < |rows| && rows[i].active && rows[i].name == x
        ensures x in Collect(rows)
      {
        var i :| 0 <= i < |rows| && rows[i].active && rows[i].name == x;
        if i > 0 {
          assert rows[1..][i - 1] == rows[i];
        }
      }
    }
  }

  /** The rows after every checked row has been unchecked; labels and visibility stay. */
  function Deactivate(rows: seq<Row>): (r: seq<Row>)
    ensures |r| == |rows|
    ensures forall i :: 0 <= i < |rows| ==> r[i] == rows[i].(active := false)
  {
    if rows == [] then [] else [rows[0].(active := false)] + Deactivate(rows[1..])
  }

  /** The installer call for `packages`: `pacstall -PI` followed by the names in order,
      made even when there are none. */
  function InstallInvocation(packages: seq<string>): (call: Invocation)
    ensures call.program == Installer
    ensures |call.args| == |packages| + 1 && call.args[0] == InstallFlag
    ensures call.args[1..] == packages
  {
    Invocation(Installer, [InstallFlag] + packages)
  }

  /** The rows built for a package list carry its catalog entries as labels, in order, all
      unchecked and shown; joining their labels gives back the text. */
  lemma NewRowsFromCatalog(raw: string)
    ensures Labels(NewRows(Catalog(raw))) == Catalog(raw)
    ensures Join(Labels(NewRows(Catalog(raw))), '\n') == raw
    ensures ActiveCount(NewRows(Catalog(raw))) == 0
  {
    var rows := NewRows(Catalog(raw));
    assert Labels(rows) == Catalog(raw);
    SplitJoin(raw, '\n');
    NoneActiveCount(rows);
  }

  /** A row sequence with no checked row has a zero active count. */
  lemma {:induction false} NoneActiveCount(rows: seq<Row>)
    requires forall i :: 0 <= i < |rows| ==> !rows[i].active
    ensures ActiveCount(rows) == 0
  {
    if rows != [] {
      NoneActiveCount(rows[1..]);
    }
  }

  /** An empty search text shows every row. */
  lemma SearchEmptyShowsAll(rows: seq<Row>)
    ensures forall i :: 0 <= i < |rows| ==> Search(rows, [])[i].visible
  {
    forall i | 0 <= i < |rows| {
      ContainsEmpty(rows[i].name);
    }
  }

  /** Searching again for the same text changes nothing. */
  lemma SearchIdempotent(rows: seq<Row>, query: string)
    ensures Search(Search(rows, query), query) == Search(rows, query)
  {
    var once := Search(rows, query);
    var twice := Search(once, query);
    forall i | 0 <= i < |rows|
      ensures twice[i] == once[i]
    {
    }
  }

  /** A search leaves the labels, their order and the check states alone, so what an
      install would collect is the same before and after it. */
  lemma {:induction false} SearchKeepsSelection(rows: seq<Row>, query: string)
    ensures Labels(Search(rows, query)) == Labels(rows)
    ensures Collect(Search(rows, query)) == Collect(rows)
  {
    if rows != [] {
      SearchKeepsSelection(rows[1..], query);
      assert Search(rows, query)[1..] == Search(rows[1..], query);
    }
  }

  /** Collecting is done row by row: the names from a concatenation are the names from the
      first part followed by those from the second, so row order is kept. */
  lemma {:induction false} CollectAppend(a: seq<Row>, b: seq<Row>)
    ensures Collect(a + b) == Collect(a) + Collect(b)
  {
    if a == [] {
      assert a + b == b;
    } else {
      var ab := a + b;
      assert ab[0] == a[0];
      assert ab[1..] == a[1..] + b;
      CollectAppend(a[1..], b);
      if a[0].active {
        calc {
          Collect(ab);
          [a[0].name] + Collect(a[1..] + b);
          [a[0].name] + (Collect(a[1..]) + Collect(b));
          ([a[0].name] + Collect(a[1..])) + Collect(b);
        }
      }
    }
  }

  /** Collecting one more row of a prefix appends that row's name if it is checked. */
  lemma CollectStep(rows: seq<Row>, i: nat)
    requires i < |rows|
    ensures Collect(rows[..i + 1]) == Collect(rows[..i]) + (if rows[i].active then [rows[i].name] else [])
  {
    CollectAppend(rows[..i], [rows[i]]);
    assert rows[..i + 1] == rows[..i] + [rows[i]];
    assert [rows[i]][1..] == [];
  }

  /** After the rows are unchecked nothing is left to collect, so a second Install click
      right after the first runs the installer with the flag alone. */
  lemma {:induction false} DeactivateLeavesNothing(rows: seq<Row>)
    ensures Collect(Deactivate(rows)) == []
    ensures InstallInvocation(Collect(Deactivate(rows))).args == [InstallFlag]
  {
    if rows != [] {
      DeactivateLeavesNothing(rows[1..]);
      assert Deactivate(rows)[1..] == Deactivate(rows[1..]);
    }
  }

  /** The installer gets the flag first and then one argument per checked row; with no row
      checked it still gets the flag. */
  lemma InstallArguments(rows: seq<Row>)
    ensures InstallInvocation(Collect(rows)).program == Installer
    ensures |InstallInvocation(Collect(rows)).args| == 1 + ActiveCount(rows)
    ensures InstallInvocation(Collect(rows)).args[0] == InstallFlag
    ensures InstallInvocation(Collect(rows)).args[1..] == Collect(rows)
    ensures ActiveCount(rows) == 0 ==> InstallInvocation(Collect(rows)).args == [InstallFlag]
  {
    var args := InstallInvocation(Collect(rows)).args;
    assert args[1..] == Collect(rows);
  }
}
