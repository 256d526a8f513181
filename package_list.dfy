/** The list box of the main window, reduced to what the handlers read and write: three
    parallel arrays holding, per row, the check button's label, whether it is checked and
    whether the row is shown. */
module PackageList {
  import opened Text
  import opened Rows

  class PackageListBox {
    var labels: array<string>
    var active: array<bool>
    var visible: array<bool>

    /** The three arrays describe the same rows. */
    ghost predicate Valid()
      reads this
    {
      labels.Length == active.Length == visible.Length && active != visible
    }

    /** The rows, first to last. */
    ghost function Contents(): seq<Row>
      reads this, labels, active, visible
      requires Valid()
    {
      Zip(labels[..], active[..], visible[..])
    }

    /** Adds one unchecked row per package, in order, and shows them all. */
    constructor (packages: seq<string>)
      ensures Valid() && fresh(labels) && fresh(active) && fresh(visible)
      ensures Contents() == NewRows(packages)
    {
      var n := |packages|;
      var names := new string[n];
      var checked := new bool[n];
      var shown := new bool[n];
      for i := 0 to n
        invariant forall k :: 0 <= k < i ==> names[k] == packages[k] && !checked[k] && shown[k]
      {
        names[i] := packages[i];
        checked[i] := false;
        shown[i] := true;
      }
      labels, active, visible := names, checked, shown;
    }

    /** The search text changed: every row is visited and shown exactly when its label
        contains the text; nothing but visibility changes. */
    method SearchChanged(query: string)
      requires Valid()
      modifies visible
      ensures Valid()
      ensures Contents() == Search(old(Contents()), query)
    {
      ghost var before := Contents();
      for i := 0 to visible.Length
        invariant forall k :: 0 <= k < i ==> (visible[k] <==> Contains(labels[k], query))
        invariant forall k :: i <= k < visible.Length ==> visible[k] == old(visible[k])
      {
        if Contains(labels[i], query) {
          visible[i] := true;
        } else {
          visible[i] := false;
        }
      }
      ghost var after := Search(before, query);
      forall k | 0 <= k < visible.Length
        ensures Contents()[k] == after[k]
      {
      }
    }

    /** Install was clicked: every row, shown or not, is visited; a checked row's label is
        appended to the names to install and the row is unchecked on the spot. Returns the
        installer call, `pacstall -PI` and the names, made even when no row was checked. */
    method InstallClicked() returns (invocation: Invocation)
      requires Valid()
      modifies active
      ensures Valid()
      ensures Contents() == Deactivate(old(Contents()))
      ensures invocation == InstallInvocation(Collect(old(Contents())))
    {
      ghost var before := Contents();
      var packagesToInstall: seq<string> := [];
      for i := 0 to active.Length
        invariant packagesToInstall == Collect(before[..i])
        invariant forall k :: 0 <= k < i ==> !active[k]
        invariant forall k :: i <= k < active.Length ==> active[k] == old(active[k])
      {
        assert before[i] == Row(labels[i], active[i], visible[i]);
        CollectStep(before, i);
        if active[i] {
          packagesToInstall := packagesToInstall + [labels[i]];
          active[i] := false;
        }
      }
      assert before[..active.Length] == before;
      ghost var after := Deactivate(before);
      forall k | 0 <= k < active.Length
        ensures Contents()[k] == after[k]
      {
      }
      invocation := InstallInvocation(packagesToInstall);
    }
  }
}
