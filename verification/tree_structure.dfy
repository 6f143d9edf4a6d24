/** `custom_structures::TreeStructure<node_t>`: a node of an N-ary tree. A
    node carries a caller-supplied level and type tag, a dictionary of
    attributes, an optional string value and an ordered list of children.
    Children are owned values here, so a child is never shared between two
    parents and there is nothing to free. */
module TreeStructures {
  import opened Options
  import opened Sequences
  import opened Dictionaries

  datatype TreeStructure<T> = Node(
    level: int,
    nodeType: T,
    attributes: Dictionary,
    value: Option<string>,
    children: seq<TreeStructure<T>>)

  /** Every attribute dictionary in the tree keeps its invariant, and every
      stored value is a C string: it holds no NUL character. */
  predicate WellFormed<T>(n: TreeStructure<T>)
    decreases n
  {
    && Valid(n.attributes)
    && (n.value.Some? ==> '\0' !in n.value.value)
    && forall i :: 0 <= i < |n.children| ==> WellFormed(n.children[i])
  }

  /** Every child sits one level below its parent, all the way down. The
      source never checks this: `add_child` trusts the caller. */
  predicate LevelsConsistent<T>(n: TreeStructure<T>)
    decreases n
  {
    forall i :: 0 <= i < |n.children| ==>
      n.children[i].level == n.level + 1 && LevelsConsistent(n.children[i])
  }

  // ---------------------------------------------------------------------
  // Accessors

  /** `get_level()`: the level given at construction; 0 marks the root. */
  function GetLevel<T>(n: TreeStructure<T>): (r: int)
    ensures r == 0 <==> IsRoot(n)
  {
    n.level
  }

  /** `get_type()`. */
  function GetType<T>(n: TreeStructure<T>): T {
    n.nodeType
  }

  /** `get_value()`: the node's own value, whether or not it is a leaf. In
      a well-formed node it reads as a C string, without NUL. */
  function GetValue<T>(n: TreeStructure<T>): (r: Option<string>)
    ensures WellFormed(n) && r.Some? ==> '\0' !in r.value
  {
    n.value
  }

  /** What a `char*` buffer filled by `strcpy_s` from `s.c_str()` reads
      back as: `s` up to, not including, its first NUL. */
  function CString(s: string): (r: string)
    ensures r <= s
    ensures '\0' !in r
    ensures |r| < |s| ==> s[|r|] == '\0'
    ensures '\0' !in s ==> r == s
  {
    var i := IndexOf(s, '\0');
    if i < 0 then s else s[..i]
  }

  /** `is_root()`: level 0. When levels are consistent the root's children
      sit at level 1, so none of them is a root. */
  function IsRoot<T>(n: TreeStructure<T>): (r: bool)
    ensures r && LevelsConsistent(n) ==>
      forall i :: 0 <= i < |n.children| ==> n.children[i].level == 1
  {
    n.level == 0
  }

  /** `get_child(idx)`, with -1 as the default argument: None when there are
      no children or `idx` is past the end, the last child for a negative
      `idx`, and otherwise the child at `idx`. */
  function GetChild<T>(n: TreeStructure<T>, idx: int := -1): (r: Option<TreeStructure<T>>)
    ensures |n.children| == 0 ==> r == None
    ensures |n.children| > 0 && idx < 0 ==> r == Some(n.children[|n.children| - 1])
    ensures 0 <= idx < |n.children| ==> r == Some(n.children[idx])
    ensures idx >= |n.children| ==> r == None
    ensures r.Some? ==> r.value in n.children
  {
    if |n.children| < 1 then None
    else if idx < 0 then Some(n.children[|n.children| - 1])
    else if idx < |n.children| then Some(n.children[idx])
    else None
  }

  /** `number_of_children()`: exactly the indexes below it give a child,
      and it is 0 exactly when `get_child()` gives nothing. */
  function NumberOfChildren<T>(n: TreeStructure<T>): (r: nat)
    ensures forall i :: 0 <= i ==> (i < r <==> GetChild(n, i).Some?)
    ensures r == 0 <==> GetChild(n) == None
  {
    |n.children|
  }

  /** `is_leaf()`: no children, whatever the value; then `get_child` gives
      nothing at any index. */
  function IsLeaf<T>(n: TreeStructure<T>): (r: bool)
    ensures r <==> NumberOfChildren(n) == 0
    ensures r <==> GetChild(n) == None
    ensures r ==> forall i :: GetChild(n, i) == None
  {
    |n.children| < 1
  }

  /** `get_children()`: the children in order, each one what `get_child`
      returns for its position. */
  function GetChildren<T>(n: TreeStructure<T>): (r: seq<TreeStructure<T>>)
    ensures |r| == NumberOfChildren(n)
    ensures forall i :: 0 <= i < |r| ==> GetChild(n, i) == Some(r[i])
  {
    n.children
  }

  /** The type tags of `cs`, in order. */
  function Types<T>(cs: seq<TreeStructure<T>>): seq<T> {
    seq(|cs|, i requires 0 <= i < |cs| => cs[i].nodeType)
  }

  /** `get_value(node_type)`: the value of the first immediate child of type
      `t`, which may itself be None; None when no child has type `t`.
      Grandchildren are never looked at. */
  function GetValueOfType<T(==)>(n: TreeStructure<T>, t: T): (r: Option<string>)
    ensures (forall i :: 0 <= i < |n.children| ==> n.children[i].nodeType != t) ==> r == None
    ensures forall i :: 0 <= i < |n.children| && n.children[i].nodeType == t
                     && (forall j :: 0 <= j < i ==> n.children[j].nodeType != t)
                     ==> r == n.children[i].value
    ensures WellFormed(n) && r.Some? ==> '\0' !in r.value
  {
    var i := IndexOf(Types(n.children), t);
    assert forall j :: 0 <= j < |n.children| ==> Types(n.children)[j] == n.children[j].nodeType;
    if i < 0 then None
    else
      assert WellFormed(n) ==> WellFormed(n.children[i]);
      n.children[i].value
  }

  // ---------------------------------------------------------------------
  // Construction and mutation

  /** `TreeStructure(node_type, node_level)`: no value, no children, no
      attributes. */
  function New<T>(nodeType: T, level: int): (n: TreeStructure<T>)
    ensures GetLevel(n) == level && GetType(n) == nodeType
    ensures GetValue(n) == None
    ensures IsLeaf(n) && NumberOfChildren(n) == 0
    ensures WellFormed(n) && forall k :: Contains(n.attributes, k) == -1
  {
    Node(level, nodeType, Empty(), None, [])
  }

  /** `TreeStructure(node_type, node_level, node_value)`: as above, holding
      `value` as the buffer copy reads it back, cut at its first NUL. */
  function NewWithValue<T>(nodeType: T, level: int, value: string): (n: TreeStructure<T>)
    ensures GetLevel(n) == level && GetType(n) == nodeType
    ensures GetValue(n) == Some(CString(value))
    ensures '\0' !in value ==> GetValue(n) == Some(value)
    ensures IsLeaf(n) && NumberOfChildren(n) == 0
    ensures WellFormed(n) && forall k :: Contains(n.attributes, k) == -1
  {
    Node(level, nodeType, Empty(), Some(CString(value)), [])
  }

  /** `add_child(node)`: `c` becomes the last child. The earlier children,
      the level, type, value and attributes stay as they were; the level of
      `c` is not checked. */
  function AddChild<T>(n: TreeStructure<T>, c: TreeStructure<T>): (r: TreeStructure<T>)
    ensures NumberOfChildren(r) == NumberOfChildren(n) + 1
    ensures !IsLeaf(r)
    ensures GetChild(r) == Some(c)
    ensures forall i :: 0 <= i < NumberOfChildren(n) ==> GetChild(r, i) == GetChild(n, i)
    ensures GetLevel(r) == GetLevel(n) && GetType(r) == GetType(n)
    ensures GetValue(r) == GetValue(n) && r.attributes == n.attributes
    ensures WellFormed(n) && WellFormed(c) ==> WellFormed(r)
  {
    n.(children := n.children + [c])
  }

  /** `add_attribute(name, value)`: the attribute dictionary changes as
      `insert(name, value)` changes it; nothing else does. */
  function AddAttribute<T>(n: TreeStructure<T>, name: string, value: string): (r: TreeStructure<T>)
    requires Valid(n.attributes)
    ensures Valid(r.attributes)
    ensures r.attributes == Insert(n.attributes, name, value)
    ensures Value(r.attributes, name) == Some(ValuesOf(n.attributes, name) + [value])
    ensures GetLevel(r) == GetLevel(n) && GetType(r) == GetType(n)
    ensures GetValue(r) == GetValue(n) && GetChildren(r) == GetChildren(n)
    ensures WellFormed(n) ==> WellFormed(r)
  {
    n.(attributes := Insert(n.attributes, name, value))
  }

  /** `replace_attribute(name, value)`: the attribute dictionary changes as
      `replace(name, value)` changes it; nothing else does, and an absent
      attribute is not created. */
  function ReplaceAttribute<T>(n: TreeStructure<T>, name: string, value: string): (r: TreeStructure<T>)
    requires Valid(n.attributes)
    ensures Valid(r.attributes)
    ensures r.attributes == Replace(n.attributes, name, value)
    ensures name in n.attributes.keys ==> Value(r.attributes, name) == Some([value])
    ensures name !in n.attributes.keys ==> r == n
    ensures GetLevel(r) == GetLevel(n) && GetType(r) == GetType(n)
    ensures GetValue(r) == GetValue(n) && GetChildren(r) == GetChildren(n)
    ensures WellFormed(n) ==> WellFormed(r)
  {
    n.(attributes := Replace(n.attributes, name, value))
  }

  // ---------------------------------------------------------------------
  // Properties relating the operations

  /** Whether a node is the root or a leaf does not depend on its value. */
  lemma RootAndLeafIgnoreValue<T>(n: TreeStructure<T>, v: Option<string>)
    ensures IsRoot(n.(value := v)) <==> IsRoot(n)
    ensures IsLeaf(n.(value := v)) <==> IsLeaf(n)
  {
  }

  /** Calling `get_child()` without an index is asking for the last
      position, and every negative index means the same. */
  lemma GetChildDefaultIsLast<T>(n: TreeStructure<T>, idx: int)
    requires idx < 0
    ensures GetChild(n, idx) == GetChild(n)
    ensures !IsLeaf(n) ==> GetChild(n) == GetChild(n, NumberOfChildren(n) - 1)
  {
  }

  /** After `add_child(c)` the typed lookup still answers from the first
      matching child; `c` is consulted only when no earlier child matches. */
  lemma AddChildValueOfType<T>(n: TreeStructure<T>, c: TreeStructure<T>, t: T)
    ensures t in Types(n.children) ==> GetValueOfType(AddChild(n, c), t) == GetValueOfType(n, t)
    ensures t !in Types(n.children) && c.nodeType == t ==> GetValueOfType(AddChild(n, c), t) == c.value
    ensures t !in Types(n.children) && c.nodeType != t ==> GetValueOfType(AddChild(n, c), t) == None
  {
    var r := AddChild(n, c);
    assert Types(r.children) == Types(n.children) + [c.nodeType];
    if t in Types(n.children) {
      var i := IndexOf(Types(n.children), t);
      assert r.children[i] == n.children[i];
      assert n.children[i].nodeType == t;
      assert forall j :: 0 <= j < i ==> r.children[j].nodeType == Types(n.children)[j];
    } else {
      assert forall j :: 0 <= j < |n.children| ==> n.children[j].nodeType == Types(n.children)[j];
      assert forall j :: 0 <= j < |n.children| ==> r.children[j] == n.children[j];
    }
  }

  /** The typed lookup sees only the immediate children's types and values:
      two nodes whose children agree on those answer alike, whatever their
      grandchildren. */
  lemma ValueOfTypeIsSingleLevel<T>(n: TreeStructure<T>, m: TreeStructure<T>, t: T)
    requires |n.children| == |m.children|
    requires forall i :: 0 <= i < |n.children| ==>
      n.children[i].nodeType == m.children[i].nodeType && n.children[i].value == m.children[i].value
    ensures GetValueOfType(n, t) == GetValueOfType(m, t)
  {
    assert Types(n.children) == Types(m.children);
  }

  /** `add_child` keeps levels consistent exactly when the new child is
      consistent itself and sits one level below. */
  lemma AddChildLevels<T>(n: TreeStructure<T>, c: TreeStructure<T>)
    requires LevelsConsistent(n)
    ensures LevelsConsistent(AddChild(n, c)) <==> c.level == n.level + 1 && LevelsConsistent(c)
  {
    var r := AddChild(n, c);
    assert r.children[|n.children|] == c;
    assert forall i :: 0 <= i < |n.children| ==> r.children[i] == n.children[i];
  }
}
