/** One run of the front-end from start-up to an install, with the file content and the
    server's answer fixed: the pieces above composed in the order the program runs them. */
module Session {
  import opened Text
  import opened Rows
  import opened PackageList

  /** The server's answer `foo\nbar\nbaz` is the catalog `foo`, `bar`, `baz`. */
  lemma ExampleCatalog()
    ensures Catalog("foo\nbar\nbaz") == ["foo", "bar", "baz"]
  {
    var parts := ["foo", "bar", "baz"];
    assert parts[1..] == ["bar", "baz"];
    assert parts[1..][1..] == ["baz"];
    assert Join(parts, '\n') == "foo\nbar\nbaz";
    JoinSplit(parts, '\n');
  }

  /** Searching for `ba` matches `bar` and `baz` but not `foo`. */
  lemma ExampleMatches()
    ensures !Contains("foo", "ba") && Contains("bar", "ba") && Contains("baz", "ba")
  {
    assert "foo"[0..2][0] == 'f' && "foo"[1..3][0] == 'o';
    assert "bar"[..2] == "ba";
    assert "baz"[..2] == "ba";
  }

  /** With `bar` and `baz` checked and `foo` hidden, the names to install are `bar`, `baz`. */
  lemma ExampleCollect()
    ensures Collect([Row("foo", false, false), Row("bar", true, true), Row("baz", true, true)])
            == ["bar", "baz"]
  {
    var rows := [Row("foo", false, false), Row("bar", true, true), Row("baz", true, true)];
    assert rows[1..] == [Row("bar", true, true), Row("baz", true, true)];
    assert rows[1..][1..] == [Row("baz", true, true)];
    assert rows[1..][1..][1..] == [];
  }

  /** Start-up and a search: the server answered `body`, the rows are built from it and the
      user typed `ba` into the search entry. */
  method BuildAndSearch(body: string) returns (box: PackageListBox)
    requires body == "foo\nbar\nbaz"
    ensures fresh(box.labels) && fresh(box.active) && fresh(box.visible) && box.Valid()
    ensures box.Contents() == [Row("foo", false, false), Row("bar", false, true), Row("baz", false, true)]
  {
    var packages := Catalog(body);
    assert packages == ["foo", "bar", "baz"] by {
      ExampleCatalog();
    }
    box := new PackageListBox(packages);
    ghost var built := box.Contents();
    assert built == NewRows(["foo", "bar", "baz"]);
    box.SearchChanged("ba");
    ghost var searched := box.Contents();
    assert searched == Search(built, "ba");
    assert !searched[0].visible && searched[1].visible && searched[2].visible by {
      ExampleMatches();
    }
  }

  /** The user checks the second and third rows of `box` and clicks Install twice. */
  method CheckAndInstallTwice(box: PackageListBox) returns (first: Invocation, second: Invocation)
    requires box.Valid()
    requires box.Contents() == [Row("foo", false, false), Row("bar", false, true), Row("baz", false, true)]
    modifies box.active
    ensures first == Invocation("pacstall", ["-PI", "bar", "baz"])
    ensures second == Invocation("pacstall", ["-PI"])
  {
    assert box.labels[1] == "bar" && box.labels[2] == "baz";
    box.active[1] := true;
    box.active[2] := true;
    ghost var rows := box.Contents();
    assert rows == [Row("foo", false, false), Row("bar", true, true), Row("baz", true, true)];
    assert Collect(rows) == ["bar", "baz"] by {
      ExampleCollect();
    }
    first := box.InstallClicked();
    second := box.InstallClicked();
    DeactivateLeavesNothing(rows);
  }

  /** The server answers `foo\nbar\nbaz` (the URL it was fetched from is the subject of
      TrailingNewlineStaysInUrl). The user searches for `ba`, which hides `foo`, checks `bar`
      and `baz`, and clicks Install twice: the first click installs both, the second nothing. */
  method ExampleSession(body: string) returns (shown: seq<bool>, first: Invocation, second: Invocation)
    requires body == "foo\nbar\nbaz"
    ensures shown == [false, true, true]
    ensures first == Invocation("pacstall", ["-PI", "bar", "baz"])
    ensures second == Invocation("pacstall", ["-PI"])
  {
    var box := BuildAndSearch(body);
    shown := box.visible[..];
    assert shown == [false, true, true] by {
      assert box.Contents() == Zip(box.labels[..], box.active[..], box.visible[..]);
    }
    first, second := CheckAndInstallTwice(box);
  }
}
