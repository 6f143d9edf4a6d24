# Dictionary and TreeStructure, modelled in Dafny

This project models the two in-memory data structures of
`custom_structures`:

- `Dictionary`, an insertion-ordered multimap from a string key to a
  non-empty list of string values. It is kept as two parallel vectors: the
  keys, and for each key its value list.
- `TreeStructure<node_t>`, a node of an N-ary tree. A node carries a
  caller-supplied level and type tag, one `Dictionary` of attributes, an
  optional string value and an ordered list of children.

The model is functional. A dictionary is the datatype
`Dictionaries.Dictionary(keys, values)` with the representation invariant
`Dictionaries.Valid`: the sequences are parallel, keys are unique, and no
value list is empty. A tree node is the recursive datatype
`TreeStructures.TreeStructure<T>`, whose children are owned values. Every
mutator of the C++ classes becomes a function that returns the updated
value. The merge `insert(const Dictionary*)` is a method whose loops follow
the C++ loops. The outer loop is `Merge`. The loop body is `MergeEntry`,
which includes the `remove` on an absent key. The inner loop is
`InsertValues`.

Each operation has a partner it is proved against:

- `insert`, `remove`, `replace` and the merge are stated through `value(key)`
  and through `Dictionaries.AsMap`, the mathematical map a dictionary
  represents. Insert appends to a map entry, remove deletes one, replace
  overwrites one, and the merge concatenates entries key by key.
- The merge is also proved equal to folding `insert(key, value)` over the
  source's pairs (`Dictionaries.InsertPairs`).
- `get_children` is stated through `get_child`, and `number_of_children`
  and `is_leaf` are stated through `get_child` too.
- `add_child` is stated through the accessors. Two lemmas describe its
  effect on the typed lookup and on level consistency.

`Scenarios` holds small literal examples: order kept, values accumulated,
replace resetting, remove idempotent, merge appending, root/leaf flags,
child retrieval, and single-level typed lookup.

Modules: `Options` (the optional result), `Sequences` (the forward linear
scan behind `contains` and `get_value(node_t)`, and key uniqueness),
`Dictionaries`, `TreeStructures`, `Scenarios`.

## Where code and comments disagree

The model follows the code in each of these cases:

- The doc comment of `contains` says an absent key gives 0. The code
  returns -1 (`source/include/dictionary.h:42` against `:48`).
- The doc comment of `is_leaf` says it is true when the node has children.
  The code returns true when it has none (`source/include/tree_structure.h:82`
  against `:86`).
- The doc comment of `get_value()` says it gives 0 for a node that is not a
  leaf. The code returns the stored value whatever the children
  (`source/include/tree_structure.h:175` against `:179`).
- The doc comment of `get_value(node_t)` says it returns the value "if the
  node is a leaf". The code returns the value of the first child of that type
  whether or not that child has children of its own
  (`source/include/tree_structure.h:185` against `:189-194`).
- The doc comment of `get_child` says it returns "a copy" of the child. The
  code returns the stored pointer (`source/include/tree_structure.h:130`
  against `:132-144`).
- `value(key)` has no return on the absent-key path, which is undefined
  behaviour in C++. The model returns `None` there.
- The level is a plain `int` in the code, so it is `int` here, not `nat`.
  `is_root` is exactly `level == 0`.

## Model

| member | source | states |
|---|---|---|
| Sequences.IndexOf | source/include/dictionary.h:46-50 | the forward scan returns -1 exactly when the element is absent, and otherwise the position of its first occurrence |
| Dictionaries.Empty | source/include/dictionary.h:27 | a new dictionary is valid and contains no key |
| Dictionaries.Contains | source/include/dictionary.h:44-51 | -1 exactly when the key is absent; otherwise a position holding the key, and in a valid dictionary the only such position |
| Dictionaries.Size | source/include/dictionary.h:57-60 | `size()` is 0 exactly when `contains` finds no key; every position `contains` reports lies below it; in a valid dictionary it is also the number of value lists |
| Dictionaries.SizeCountsKeys | source/include/dictionary.h:57-60 | `size()` equals the number of distinct keys and the number of value lists |
| Dictionaries.SizeOf | source/include/dictionary.h:66-73 | -1 exactly when the key is absent; otherwise at least 1, and the length of that key's value list |
| Dictionaries.Value | source/include/dictionary.h:156-162 | None exactly when the key is absent; otherwise the value list at the key's position, never empty |
| Dictionaries.PresentIffHoldsValues | source/include/dictionary.h:166-167 | a key is present exactly when it holds at least one value |
| Dictionaries.Keys | source/include/dictionary.h:137-140 | the keys listed once each, every key at the position `contains` reports for it |
| Dictionaries.Values | source/include/dictionary.h:146-149 | one value list per key, each the one `value` returns for the key at that position |
| Dictionaries.Insert | source/include/dictionary.h:80-90 | keeps the invariant; the key's list gains the value at its end; a new key is appended last and an existing key keeps the key order; every other key's list is unchanged |
| Dictionaries.Remove | source/include/dictionary.h:111-118 | keeps the invariant; the key is gone; an absent key leaves the dictionary unchanged; a present one lowers `size()` by one; the other keys keep their lists and their relative order |
| Dictionaries.RemoveKeepsOrder | source/include/dictionary.h:115-116 | erasing one position from both vectors keeps the invariant, every other key's list and the order of the remaining keys |
| Dictionaries.Replace | source/include/dictionary.h:125-131 | keeps the invariant and the key order; a present key's list becomes exactly the one value; an absent key is not created and nothing changes |
| Dictionaries.Merge | source/include/dictionary.h:95-105 | the loop, including its `remove` on absent keys, yields exactly the fold of `insert(key, value)` over the source's pairs, keys in order and each key's values in order; the result is valid and the old keys stay a prefix |
| Dictionaries.MergeEntry | source/include/dictionary.h:99-103 | for one source key, the `remove` branch changes nothing: the result is the fold of `insert` over that key's values |
| Dictionaries.InsertValues | source/include/dictionary.h:102-103 | the inner loop is the fold of `insert(key, value)` over the values, in order |
| Dictionaries.InsertPairsConcat | source/include/dictionary.h:97-104 | inserting two runs of pairs is inserting the first run and then the second |
| Dictionaries.InsertPairsValues | source/include/dictionary.h:95-105 | folding `insert` over pairs appends to each key exactly the values paired with it, in order |
| Dictionaries.PairsValues | source/include/dictionary.h:97-103 | the pairs the merge walks through give each key exactly its own value list |
| Dictionaries.MergeSummary | source/include/dictionary.h:95-105 | after the merge (the fold `Merge` computes) each key holds its old values followed by the source's, with none dropped or overwritten, and a key is present exactly when it was in either dictionary |
| Dictionaries.AsMapAgrees | source/include/dictionary.h:156-162 | `value(key)` reads the map the dictionary represents |
| Dictionaries.RepresentsUnique | source/include/dictionary.h:166-167 | a valid dictionary represents exactly one map |
| Dictionaries.InsertRefinesMap | source/include/dictionary.h:80-90 | on the represented map, insert appends the value to the key's entry, which starts empty when the key is new |
| Dictionaries.RemoveRefinesMap | source/include/dictionary.h:111-118 | on the represented map, remove deletes the key |
| Dictionaries.ReplaceRefinesMap | source/include/dictionary.h:125-131 | on the represented map, replace overwrites a present key's entry with the single value and leaves the map alone otherwise |
| Dictionaries.MergeRefinesMap | source/include/dictionary.h:95-105 | on the represented maps, the merge concatenates the two entries of every key |
| TreeStructures.New | source/include/tree_structure.h:33-40 | the node has the given level and type, no value, no children and an empty, valid attribute dictionary |
| TreeStructures.NewWithValue | source/include/tree_structure.h:48-56 | as for `New`, except that the node holds the given value as the `char*` copy reads it back: cut at its first NUL, and the value itself when it has no NUL |
| TreeStructures.CString | source/include/tree_structure.h:53-55 | what the buffer filled by `strcpy_s` reads back as: a prefix of the given string with no NUL, stopping exactly at the first NUL, and the whole string when it has none |
| TreeStructures.GetLevel | source/include/tree_structure.h:159-162 | the level is 0 exactly when the node is the root |
| TreeStructures.GetType | source/include/tree_structure.h:168-171 | reads the type given at construction; it has no contract of its own, and the contracts of `New`, `NewWithValue` and the three mutators say what it returns |
| TreeStructures.GetValue | source/include/tree_structure.h:177-180 | the node's own value whether or not it has children; in a well-formed node it holds no NUL, as a C string read back cannot |
| TreeStructures.IsRoot | source/include/tree_structure.h:75-78 | when levels are consistent, the children of a root sit at level 1, so none of them is a root |
| TreeStructures.IsLeaf | source/include/tree_structure.h:84-87 | a node is a leaf exactly when it has no children and exactly when `get_child()` gives nothing; then every index gives nothing |
| TreeStructures.NumberOfChildren | source/include/tree_structure.h:122-125 | exactly the indexes from 0 up to the count give a child, and the count is 0 exactly when `get_child()` gives nothing |
| TreeStructures.GetChild | source/include/tree_structure.h:132-144 | None when there are no children, whatever the index; the last child for a negative index; the child at a valid index; None past the end; any result is one of the children |
| TreeStructures.GetChildren | source/include/tree_structure.h:150-153 | one entry per child, each the one `get_child` returns at its position |
| TreeStructures.GetValueOfType | source/include/tree_structure.h:187-195 | None when no immediate child has the type; otherwise the value of the first child of that type, which may itself be None; in a well-formed node a value it returns holds no NUL |
| TreeStructures.AddChild | source/include/tree_structure.h:93-96 | one more child, which is the new last child; the node is no longer a leaf; earlier children, level, type, value and attributes are unchanged; well-formedness is kept |
| TreeStructures.AddAttribute | source/include/tree_structure.h:103-106 | the attributes change exactly as dictionary insert changes them; level, type, value and children are unchanged |
| TreeStructures.ReplaceAttribute | source/include/tree_structure.h:113-116 | the attributes change exactly as dictionary replace changes them; an absent attribute leaves the node unchanged; level, type, value and children are unchanged |
| TreeStructures.RootAndLeafIgnoreValue | source/include/tree_structure.h:75-87 | being the root or a leaf does not depend on the node's value |
| TreeStructures.GetChildDefaultIsLast | source/include/tree_structure.h:132-144 | the default index and every negative index select the last position |
| TreeStructures.AddChildValueOfType | source/include/tree_structure.h:187-195 | after adding a child, the typed lookup gives the same answer when an earlier child matches; otherwise it gives the new child's value if its type matches, and None if not |
| TreeStructures.ValueOfTypeIsSingleLevel | source/include/tree_structure.h:187-195 | the typed lookup depends only on the types and values of the immediate children, never on grandchildren |
| TreeStructures.AddChildLevels | source/include/tree_structure.h:93-96 | `add_child` keeps levels consistent exactly when the new child is consistent and sits one level below; the code does not check this |
| Scenarios.InsertionOrderKept | source/include/dictionary.h:80-90 | inserts and replaces on existing keys keep first-insertion order |
| Scenarios.ValuesAccumulate | source/include/dictionary.h:80-90 | two inserts under one key give size 2 and both values in order |
| Scenarios.ReplaceResets | source/include/dictionary.h:125-131 | replace after two inserts leaves a single value |
| Scenarios.RemoveIdempotent | source/include/dictionary.h:111-118 | a second remove changes nothing; the key is gone and one key remains |
| Scenarios.MergeAppends | source/include/dictionary.h:95-105 | merging `{k: [v2]}` into `{k: [v1]}` gives `[v1, v2]` |
| Scenarios.RootAndLeaf | source/include/tree_structure.h:75-96 | a level-0 node is the root and a leaf; one added child makes it a non-leaf with one child |
| Scenarios.ChildRetrieval | source/include/tree_structure.h:132-144 | with three children: index 1 gives the second child, the default gives the third, and index 5 gives None |
| Scenarios.TypedLookupIsSingleLevel | source/include/tree_structure.h:187-195 | a grandchild of the requested type does not shadow the child's value |
| Scenarios.ValueCutAtNul | source/include/tree_structure.h:48-56 | a node built with the value `"a\0b"` reads back `"a"` |

`get_type()` and `get_value()` read a field. The contracts of `New`,
`NewWithValue`, `AddChild`, `AddAttribute` and `ReplaceAttribute` fix what
they return.

The merge works on a snapshot of the source. This matches the C++: it
iterates over a copy of `keys()` and a copy of each `value(key)`. Merging a
dictionary into itself therefore doubles every list, in the code and in
the model.

## Left out

- Destructors, `new`/`delete` and freeing owned subtrees: values in the model own their parts, so nothing is freed.
- The `char*` value buffer and `m_value_len`: the value is an `Option<string>`. What `strcpy_s` keeps, the string up to its first NUL, is modelled by `CString`.
- Pointer identity: `get_child` and `get_children` return child values, not references, so a caller cannot mutate a child through them.
- TreeStructures.AddChild: the code accepts a null pointer. `number_of_children()` then counts it and `is_leaf()` turns false, `get_child` at its index returns 0 as if past the end, and `get_value(node_t)` dereferences it. Children here are values, so a null child cannot be expressed.
- Dictionaries.Merge: the code dereferences the `source` pointer without a null check. The source here is a value, so a null source cannot be expressed.
- The ownership precondition of `add_child` (a node must not be added twice or kept by the caller): children are values and cannot be shared.
- Level consistency between parent and child is not enforced, as in the code. `LevelsConsistent` states it separately.
- The `int` casts of `size_t` counts: counts are unbounded integers.
- There is no public accessor for a node's attribute dictionary in the code. Contracts refer to the `attributes` field directly.
- The commented-out value-type enumeration and the note about nesting dictionaries: there is no behaviour behind either.
