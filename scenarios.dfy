/** Concrete listings: the two unit-test scenarios of test-cases.py, a
    nested-key example, and a failing store. */
module ListerScenarios {
  import opened Lexicographic
  import opened Lister

  /** Top level: keys "dir1/" and "dir2/" under the empty prefix. */
  lemma TopLevelListing()
    ensures Listing("", Replied(Response(Some([StoredObject("dir1/"), StoredObject("dir2/")]))))
         == Content(["dir1", "dir2"])
  {
    TopLevelChildren();
    SortedPair("dir1", "dir2");
  }

  /** Inside a directory: prefix "dir2" is normalised to "dir2/" and the
      keys "dir2/file1", "dir2/file2" list as the two file names. */
  lemma DirectoryListing()
    ensures Listing("dir2", Replied(Response(Some([StoredObject("dir2/file1"), StoredObject("dir2/file2")]))))
         == Content(["file1", "file2"])
  {
    NormalizeDir2();
    DirectoryChildren();
    SortedPair("file1", "file2");
  }

  /** Deeper keys collapse to their first segment and are deduplicated:
      "a/b/c", "a/b/d", "a/x" under "a/" list as "b", "x". */
  lemma NestedListing()
    ensures Listing("a/", Replied(Response(Some([StoredObject("a/b/c"), StoredObject("a/b/d"), StoredObject("a/x")]))))
         == Content(["b", "x"])
  {
    NestedChildren();
    assert Less("b", "x");
    SortedSetCanonical(["b", "b", "x"], ["b", "x"]);
  }

  /** A store that raises "AccessDenied" for prefix "dir1" gives that
      message with status 500. */
  lemma FailedListing()
    ensures Listing("dir1", Raised("AccessDenied")) == Error("AccessDenied", 500)
  {
  }

  // The steps of the three listings, one key at a time.

  lemma TopLevelChildren()
    ensures Children([StoredObject("dir1/"), StoredObject("dir2/")], "") == ["dir1", "dir2"]
  {
    ChildrenOfTwo(StoredObject("dir1/"), StoredObject("dir2/"), "");
    ChildOfDir1();
    ChildOfDir2();
  }

  lemma DirectoryChildren()
    ensures Children([StoredObject("dir2/file1"), StoredObject("dir2/file2")], "dir2/") == ["file1", "file2"]
  {
    ChildrenOfTwo(StoredObject("dir2/file1"), StoredObject("dir2/file2"), "dir2/");
    ChildOfFile1();
    ChildOfFile2();
  }

  lemma NestedChildren()
    ensures Children([StoredObject("a/b/c"), StoredObject("a/b/d"), StoredObject("a/x")], "a/") == ["b", "b", "x"]
  {
    var objects := [StoredObject("a/b/c"), StoredObject("a/b/d"), StoredObject("a/x")];
    ChildrenOfTwo(objects[0], objects[1], "a/");
    assert objects[..2] == [objects[0], objects[1]];
    ChildOfBC();
    ChildOfBD();
    ChildOfX();
  }

  lemma ChildrenOfTwo(o1: StoredObject, o2: StoredObject, prefix: string)
    ensures Children([o1, o2], prefix) == Contribution(o1, prefix) + Contribution(o2, prefix)
  {
    assert [o1, o2][..1] == [o1] && [o1][..0] == [];
  }

  lemma SortedPair(a: string, b: string)
    requires Less(a, b)
    ensures SortedSet([a, b]) == [a, b]
  {
    SortedSetCanonical([a, b], [a, b]);
  }

  lemma NormalizeDir2() ensures NormalizePrefix("dir2") == "dir2/" {
    assert "dir2" + "/" == "dir2/";
  }

  lemma ChildOfDir1() ensures Child("dir1/", "") == "dir1" {
    ChildOfPath("", "dir1", "/");
    assert "" + "dir1" + "/" == "dir1/";
  }

  lemma ChildOfDir2() ensures Child("dir2/", "") == "dir2" {
    ChildOfPath("", "dir2", "/");
    assert "" + "dir2" + "/" == "dir2/";
  }

  lemma ChildOfFile1() ensures Child("dir2/file1", "dir2/") == "file1" {
    ChildOfPath("dir2/", "file1", "");
    assert "dir2/" + "file1" + "" == "dir2/file1";
  }

  lemma ChildOfFile2() ensures Child("dir2/file2", "dir2/") == "file2" {
    ChildOfPath("dir2/", "file2", "");
    assert "dir2/" + "file2" + "" == "dir2/file2";
  }

  lemma ChildOfBC() ensures Child("a/b/c", "a/") == "b" {
    ChildOfPath("a/", "b", "/c");
    assert "a/" + "b" + "/c" == "a/b/c";
  }

  lemma ChildOfBD() ensures Child("a/b/d", "a/") == "b" {
    ChildOfPath("a/", "b", "/d");
    assert "a/" + "b" + "/d" == "a/b/d";
  }

  lemma ChildOfX() ensures Child("a/x", "a/") == "x" {
    ChildOfPath("a/", "x", "");
    assert "a/" + "x" + "" == "a/x";
  }
}
