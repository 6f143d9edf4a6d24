/** Small concrete uses of the dictionary and the tree, each pinning down one
    behaviour of `Dictionary` or `TreeStructure` on a literal input. */
module Scenarios {
  import opened Options
  import opened Dictionaries
  import opened TreeStructures

  /** Later inserts and replaces on existing keys keep first-insertion order. */
  lemma InsertionOrderKept()
    ensures Keys(Replace(Insert(Insert(Insert(Empty(), "a", "1"), "b", "2"), "a", "3"), "b", "4"))
         == ["a", "b"]
  {
  }

  /** Two inserts under one key accumulate both values, in order. */
  lemma ValuesAccumulate()
    ensures SizeOf(Insert(Insert(Empty(), "k", "v1"), "k", "v2"), "k") == 2
    ensures Value(Insert(Insert(Empty(), "k", "v1"), "k", "v2"), "k") == Some(["v1", "v2"])
  {
    var d1 := Insert(Empty(), "k", "v1");
    assert ValuesOf(d1, "k") == ["v1"];
    assert ValuesOf(d1, "k") + ["v2"] == ["v1", "v2"];
  }

  /** `replace` resets a list rather than appending to it. */
  lemma ReplaceResets()
    ensures Value(Replace(Insert(Insert(Empty(), "k", "v1"), "k", "v2"), "k", "v3"), "k") == Some(["v3"])
  {
  }

  /** Removing twice is removing once; the key is gone and one key fewer
      remains. */
  lemma RemoveIdempotent()
    ensures Remove(Remove(Insert(Insert(Empty(), "a", "1"), "b", "2"), "a"), "a")
         == Remove(Insert(Insert(Empty(), "a", "1"), "b", "2"), "a")
    ensures Contains(Remove(Insert(Insert(Empty(), "a", "1"), "b", "2"), "a"), "a") == -1
    ensures Size(Remove(Insert(Insert(Empty(), "a", "1"), "b", "2"), "a")) == 1
  {
  }

  /** Merging `{k: [v2]}` into `{k: [v1]}` yields `{k: [v1, v2]}`. */
  lemma MergeAppends()
    ensures ValuesOf(InsertPairs(Insert(Empty(), "k", "v1"), Pairs(["k"], [["v2"]])), "k") == ["v1", "v2"]
  {
    var a := Insert(Empty(), "k", "v1");
    var b := Insert(Empty(), "k", "v2");
    assert b == Dictionary(["k"], [["v2"]]);
    MergeSummary(a, b);
    assert ValuesOf(a, "k") == ["v1"];
    assert ValuesOf(b, "k") == ["v2"];
  }

  /** A root is a leaf until it gets a child, whatever its value. */
  lemma RootAndLeaf()
    ensures IsRoot(New(0, 0)) && IsLeaf(New(0, 0)) && IsLeaf(NewWithValue(0, 0, "x"))
    ensures !IsLeaf(AddChild(New(0, 0), New(1, 1)))
    ensures NumberOfChildren(AddChild(New(0, 0), New(1, 1))) == 1
  {
  }

  /** Children are found by index and by "last"; past the end gives None. */
  lemma ChildRetrieval(c0: TreeStructure<int>, c1: TreeStructure<int>, c2: TreeStructure<int>)
    ensures GetChild(AddChild(AddChild(AddChild(New(0, 0), c0), c1), c2), 1) == Some(c1)
    ensures GetChild(AddChild(AddChild(AddChild(New(0, 0), c0), c1), c2)) == Some(c2)
    ensures GetChild(AddChild(AddChild(AddChild(New(0, 0), c0), c1), c2), 5) == None
  {
  }

  /** A grandchild of the requested type is not what the lookup returns. */
  lemma TypedLookupIsSingleLevel()
    ensures GetValueOfType(AddChild(New(0, 0), AddChild(NewWithValue(7, 1, "x"), NewWithValue(7, 2, "y"))), 7)
         == Some("x")
  {
    var c := AddChild(NewWithValue(7, 1, "x"), NewWithValue(7, 2, "y"));
    var p := AddChild(New(0, 0), c);
    assert p.children[0] == c;
  }

  /** A value with an embedded NUL is kept only up to the NUL, as the
      `strcpy_s` copy into the node's buffer keeps it. */
  lemma ValueCutAtNul()
    ensures GetValue(NewWithValue(0, 0, "a\0b")) == Some("a")
  {
    var s := "a\0b";
    var r := CString(s);
    assert s[0] == 'a' && s[1] == '\0';
    assert forall j :: 0 <= j < |r| ==> r[j] != '\0';
    assert |r| == 1;
    assert r == "a";
  }
}
