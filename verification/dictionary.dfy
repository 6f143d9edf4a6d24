/** `custom_structures::Dictionary`: an insertion-ordered multimap from a
    string key to a non-empty list of string values, stored as two parallel
    sequences, the keys and, position for position, their value lists. */
module Dictionaries {
  import opened Options
  import opened Sequences

  datatype Dictionary = Dictionary(keys: seq<string>, values: seq<seq<string>>)

  /** The representation invariant every operation keeps: the two sequences
      are parallel, no key occurs twice, and no key holds an empty list. */
  predicate Valid(d: Dictionary) {
    && |d.keys| == |d.values|
    && Unique(d.keys)
    && forall i :: 0 <= i < |d.values| ==> |d.values[i]| > 0
  }

  /** The default constructor: no keys. */
  function Empty(): (d: Dictionary)
    ensures Valid(d)
    ensures forall k :: Contains(d, k) == -1
  {
    Dictionary([], [])
  }

  /** `contains(key)`: the position of `key` among the keys, or -1. */
  function Contains(d: Dictionary, key: string): (r: int)
    ensures r == -1 <==> key !in d.keys
    ensures 0 <= r ==> r < |d.keys| && d.keys[r] == key
    ensures Valid(d) ==> forall i :: 0 <= i < |d.keys| && d.keys[i] == key ==> r == i
  {
    IndexOf(d.keys, key)
  }

  /** `size()`: the number of keys. It is 0 exactly when `contains` finds
      no key, every position `contains` reports lies below it, and in a
      valid dictionary it is also the number of value lists. */
  function Size(d: Dictionary): (r: nat)
    ensures r == 0 <==> forall k :: Contains(d, k) == -1
    ensures forall k :: Contains(d, k) < r
    ensures Valid(d) ==> r == |d.values|
  {
    if |d.keys| > 0 then
      assert Contains(d, d.keys[0]) >= 0;
      |d.keys|
    else |d.keys|
  }

  /** `size()` counts distinct keys, one per value list. */
  lemma SizeCountsKeys(d: Dictionary)
    requires Valid(d)
    ensures Size(d) == |Elements(d.keys)|
    ensures Size(d) == |d.values|
  {
    UniqueCardinality(d.keys);
  }

  /** `size(key)`: how many values `key` holds, or -1 when it is absent. */
  function SizeOf(d: Dictionary, key: string): (r: int)
    requires Valid(d)
    ensures r == -1 <==> key !in d.keys
    ensures r != -1 ==> r >= 1
    ensures forall i :: 0 <= i < |d.keys| && d.keys[i] == key ==> r == |d.values[i]|
  {
    var idx := Contains(d, key);
    if idx < 0 then -1 else |d.values[idx]|
  }

  /** `value(key)`: the value list of `key`, or None when `key` is absent
      (a path on which the C++ member returns nothing). */
  function Value(d: Dictionary, key: string): (r: Option<seq<string>>)
    requires Valid(d)
    ensures r.None? <==> key !in d.keys
    ensures forall i :: 0 <= i < |d.keys| && d.keys[i] == key ==> r == Some(d.values[i])
    ensures r.Some? ==> |r.value| > 0
  {
    var idx := Contains(d, key);
    if idx >= 0 then Some(d.values[idx]) else None
  }

  /** The values `key` holds, empty when it is absent. */
  function ValuesOf(d: Dictionary, key: string): seq<string>
    requires Valid(d)
  {
    Value(d, key).GetOr([])
  }

  /** A key is present exactly when it holds some value. */
  lemma PresentIffHoldsValues(d: Dictionary, key: string)
    requires Valid(d)
    ensures key in d.keys <==> ValuesOf(d, key) != []
  {
  }

  /** `keys()`: every key once, each at the position `contains` reports. */
  function Keys(d: Dictionary): (r: seq<string>)
    requires Valid(d)
    ensures forall k :: k in r <==> Contains(d, k) >= 0
    ensures forall i :: 0 <= i < |r| ==> Contains(d, r[i]) == i
  {
    d.keys
  }

  /** `values()`: the value lists, parallel to `keys()`. */
  function Values(d: Dictionary): (r: seq<seq<string>>)
    requires Valid(d)
    ensures |r| == Size(d)
    ensures forall i :: 0 <= i < |r| ==> Value(d, Keys(d)[i]) == Some(r[i])
  {
    d.values
  }

  /** `insert(key, value)`: a new key goes to the end with the list
      `[value]`; an existing key gets `value` appended to its list, without
      deduplication. Nothing else changes. */
  function Insert(d: Dictionary, key: string, value: string): (r: Dictionary)
    requires Valid(d)
    ensures Valid(r)
    ensures Value(r, key) == Some(ValuesOf(d, key) + [value])
    ensures forall k :: k != key ==> Value(r, k) == Value(d, k)
    ensures key in d.keys ==> r.keys == d.keys
    ensures key !in d.keys ==> r.keys == d.keys + [key]
  {
    var idx := Contains(d, key);
    if idx < 0 then
      var r := Dictionary(d.keys + [key], d.values + [[value]]);
      AppendKeepsValues(d, key, value);
      assert ValuesOf(d, key) + [value] == [value];
      r
    else
      var r := Dictionary(d.keys, d.values[idx := d.values[idx] + [value]]);
      ExtendKeepsValues(d, idx, value);
      r
  }

  /** Appending a fresh key keeps the dictionary valid and every earlier
      key's list, and gives the new key the list `[value]`. */
  lemma AppendKeepsValues(d: Dictionary, key: string, value: string)
    requires Valid(d)
    requires key !in d.keys
    ensures Valid(Dictionary(d.keys + [key], d.values + [[value]]))
    ensures Value(Dictionary(d.keys + [key], d.values + [[value]]), key) == Some([value])
    ensures forall k :: k != key ==>
      Value(Dictionary(d.keys + [key], d.values + [[value]]), k) == Value(d, k)
  {
    var r := Dictionary(d.keys + [key], d.values + [[value]]);
    assert Valid(r) by {
      forall i, j | 0 <= i < j < |r.keys| ensures r.keys[i] != r.keys[j] {
        if j < |d.keys| {
          assert r.keys[i] == d.keys[i] && r.keys[j] == d.keys[j];
        } else {
          assert r.keys[i] == d.keys[i];
        }
      }
    }
    assert r.keys[|d.keys|] == key;
    forall k | k != key ensures Value(r, k) == Value(d, k) {
      if k in d.keys {
        var i := Contains(d, k);
        assert r.keys[i] == d.keys[i] && r.values[i] == d.values[i];
      } else {
        assert k !in r.keys;
      }
    }
  }

  /** Extending the list at position `idx` keeps the dictionary valid and
      leaves every other key's list alone. */
  lemma ExtendKeepsValues(d: Dictionary, idx: int, value: string)
    requires Valid(d)
    requires 0 <= idx < |d.keys|
    ensures Valid(Dictionary(d.keys, d.values[idx := d.values[idx] + [value]]))
    ensures forall k :: k != d.keys[idx] ==>
      Value(Dictionary(d.keys, d.values[idx := d.values[idx] + [value]]), k) == Value(d, k)
  {
    var r := Dictionary(d.keys, d.values[idx := d.values[idx] + [value]]);
    forall k | k != d.keys[idx] ensures Value(r, k) == Value(d, k) {
      if k in d.keys {
        var i := Contains(d, k);
        assert r.values[i] == d.values[i];
      }
    }
  }

  /** `remove(key)`: drops `key` and its list; the remaining keys keep
      their values and their relative order. An absent key changes nothing. */
  function Remove(d: Dictionary, key: string): (r: Dictionary)
    requires Valid(d)
    ensures Valid(r)
    ensures key !in r.keys
    ensures forall k :: k != key ==> Value(r, k) == Value(d, k)
    ensures key !in d.keys ==> r == d
    ensures key in d.keys ==> Size(r) == Size(d) - 1
    ensures forall a, b :: 0 <= a < b < |r.keys| ==> Contains(d, r.keys[a]) < Contains(d, r.keys[b])
  {
    var idx := Contains(d, key);
    if idx < 0 then d
    else
      var r := Dictionary(RemoveAt(d.keys, idx), RemoveAt(d.values, idx));
      RemoveKeepsOrder(d, idx);
      r
  }

  /** Erasing position `idx` from a valid dictionary leaves a valid one in
      which every key stays in the order it had. */
  lemma RemoveKeepsOrder(d: Dictionary, idx: int)
    requires Valid(d)
    requires 0 <= idx < |d.keys|
    ensures Valid(Dictionary(RemoveAt(d.keys, idx), RemoveAt(d.values, idx)))
    ensures d.keys[idx] !in RemoveAt(d.keys, idx)
    ensures forall k :: k != d.keys[idx] ==>
      Value(Dictionary(RemoveAt(d.keys, idx), RemoveAt(d.values, idx)), k) == Value(d, k)
    ensures forall a, b :: 0 <= a < b < |d.keys| - 1 ==>
      Contains(d, RemoveAt(d.keys, idx)[a]) < Contains(d, RemoveAt(d.keys, idx)[b])
  {
    var ks := RemoveAt(d.keys, idx);
    var r := Dictionary(ks, RemoveAt(d.values, idx));
    forall a | 0 <= a < |ks|
      ensures Contains(d, ks[a]) == (if a < idx then a else a + 1)
    {
      var a' := if a < idx then a else a + 1;
      assert ks[a] == d.keys[a'];
    }
    assert Unique(ks) by {
      forall a, b | 0 <= a < b < |ks| ensures ks[a] != ks[b] {
        var a' := if a < idx then a else a + 1;
        var b' := if b < idx then b else b + 1;
        assert ks[a] == d.keys[a'] && ks[b] == d.keys[b'];
      }
    }
    assert Valid(r);
    forall k | k != d.keys[idx] ensures Value(r, k) == Value(d, k) {
      if k in d.keys {
        var i := Contains(d, k);
        var i' := if i < idx then i else i - 1;
        assert r.keys[i'] == d.keys[i] && r.values[i'] == d.values[i];
      } else {
        assert k !in r.keys;
      }
    }
    assert d.keys[idx] !in ks by {
      forall a | 0 <= a < |ks| ensures ks[a] != d.keys[idx] {
        var a' := if a < idx then a else a + 1;
        assert ks[a] == d.keys[a'];
      }
    }
  }

  /** `replace(key, value)`: a present key's list becomes exactly
      `[value]`; key order is untouched and an absent key is not created. */
  function Replace(d: Dictionary, key: string, value: string): (r: Dictionary)
    requires Valid(d)
    ensures Valid(r)
    ensures r.keys == d.keys
    ensures key in d.keys ==> Value(r, key) == Some([value])
    ensures key !in d.keys ==> r == d
    ensures forall k :: k != key ==> Value(r, k) == Value(d, k)
  {
    var idx := Contains(d, key);
    if idx >= 0 then Dictionary(d.keys, d.values[idx := [value]]) else d
  }

  // ---------------------------------------------------------------------
  // Merging one dictionary into another

  /** The (key, value) pairs of a dictionary: keys in order, and for each
      key its values in order. */
  function Pairs(ks: seq<string>, vss: seq<seq<string>>): seq<(string, string)>
    requires |ks| == |vss|
    decreases |ks|
  {
    if |ks| == 0 then []
    else Pairs(ks[..|ks| - 1], vss[..|vss| - 1]) + Tag(ks[|ks| - 1], vss[|vss| - 1])
  }

  /** One more key of a dictionary adds its pairs at the end. */
  lemma PairsStep(ks: seq<string>, vss: seq<seq<string>>, i: int)
    requires |ks| == |vss|
    requires 0 <= i < |ks|
    ensures Pairs(ks[..i + 1], vss[..i + 1]) == Pairs(ks[..i], vss[..i]) + Tag(ks[i], vss[i])
  {
    assert ks[..i + 1][..i] == ks[..i];
    assert vss[..i + 1][..i] == vss[..i];
  }

  /** Every value of `vs` paired with `key`. */
  function Tag(key: string, vs: seq<string>): seq<(string, string)> {
    seq(|vs|, j requires 0 <= j < |vs| => (key, vs[j]))
  }

  /** `insert(key, value)` applied to every pair of `ps`, first to last. */
  function InsertPairs(d: Dictionary, ps: seq<(string, string)>): (r: Dictionary)
    requires Valid(d)
    ensures Valid(r)
    ensures d.keys <= r.keys
    decreases |ps|
  {
    if |ps| == 0 then d
    else
      var p := ps[|ps| - 1];
      Insert(InsertPairs(d, ps[..|ps| - 1]), p.0, p.1)
  }

  /** The values paired with `key` in `ps`, in order. */
  function ValuesFor(ps: seq<(string, string)>, key: string): seq<string>
    decreases |ps|
  {
    if |ps| == 0 then []
    else
      var p := ps[|ps| - 1];
      ValuesFor(ps[..|ps| - 1], key) + (if p.0 == key then [p.1] else [])
  }

  /** `insert(source)`, step for step: for every key of the source, in
      order, `MergeEntry` adds the key's values. The result is exactly the
      fold of `insert(key, value)` over the source's pairs, keys in order
      and each key's values in order; `MergeSummary` spells out what that
      fold leaves behind. */
  method Merge(d: Dictionary, src: Dictionary) returns (r: Dictionary)
    requires Valid(d)
    requires Valid(src)
    ensures r == InsertPairs(d, Pairs(src.keys, src.values))
    ensures Valid(r)
    ensures d.keys <= r.keys
  {
    r := d;
    var i := 0;
    while i < |src.keys|
      invariant 0 <= i <= |src.keys|
      invariant r == InsertPairs(d, Pairs(src.keys[..i], src.values[..i]))
    {
      var key := src.keys[i];
      ValueAt(src, i);
      var vs := Value(src, key).GetOr([]);
      ghost var done := Pairs(src.keys[..i], src.values[..i]);
      r := MergeEntry(r, key, vs);
      InsertPairsConcat(d, done, Tag(key, vs));
      PairsStep(src.keys, src.values, i);
      i := i + 1;
    }
    assert src.keys[..i] == src.keys && src.values[..i] == src.values;
  }

  /** `value` at a key's own position. */
  lemma ValueAt(d: Dictionary, i: int)
    requires Valid(d)
    requires 0 <= i < |d.keys|
    ensures Value(d, d.keys[i]) == Some(d.values[i])
  {
  }

  /** The body of the merge loop for one source key: the key is removed
      when it is absent, which changes nothing, and then the key's values
      are inserted. */
  method MergeEntry(d: Dictionary, key: string, vs: seq<string>) returns (r: Dictionary)
    requires Valid(d)
    ensures r == InsertPairs(d, Tag(key, vs))
    ensures Valid(r)
  {
    r := d;
    if Contains(r, key) < 0 {
      r := Remove(r, key);
    }
    r := InsertValues(r, key, vs);
  }

  /** The inner loop of the merge: every value of `vs`, in order, inserted
      under `key`. */
  method InsertValues(d: Dictionary, key: string, vs: seq<string>) returns (r: Dictionary)
    requires Valid(d)
    ensures r == InsertPairs(d, Tag(key, vs))
    ensures Valid(r)
  {
    r := d;
    var j := 0;
    assert Tag(key, vs[..j]) == [];
    while j < |vs|
      invariant 0 <= j <= |vs|
      invariant Valid(r)
      invariant r == InsertPairs(d, Tag(key, vs[..j]))
    {
      r := Insert(r, key, vs[j]);
      assert Tag(key, vs[..j + 1]) == Tag(key, vs[..j]) + [(key, vs[j])];
      assert Tag(key, vs[..j + 1])[..j] == Tag(key, vs[..j]);
      j := j + 1;
    }
    assert vs[..j] == vs;
  }

  /** Folding over two runs of pairs is folding over the first and then
      over the second. */
  lemma {:induction false} InsertPairsConcat(d: Dictionary, a: seq<(string, string)>, b: seq<(string, string)>)
    requires Valid(d)
    ensures InsertPairs(d, a + b) == InsertPairs(InsertPairs(d, a), b)
    decreases |b|
  {
    if |b| == 0 {
      assert a + b == a;
    } else {
      assert (a + b)[..|a + b| - 1] == a + b[..|b| - 1];
      InsertPairsConcat(d, a, b[..|b| - 1]);
    }
  }

  /** What the merge leaves behind, key by key. */
  lemma MergeSummary(d: Dictionary, src: Dictionary)
    requires Valid(d)
    requires Valid(src)
    ensures forall k :: ValuesOf(InsertPairs(d, Pairs(src.keys, src.values)), k)
                     == ValuesOf(d, k) + ValuesOf(src, k)
    ensures forall k :: k in InsertPairs(d, Pairs(src.keys, src.values)).keys
                    <==> k in d.keys || k in src.keys
  {
    var r := InsertPairs(d, Pairs(src.keys, src.values));
    forall k
      ensures ValuesOf(r, k) == ValuesOf(d, k) + ValuesOf(src, k)
      ensures k in r.keys <==> k in d.keys || k in src.keys
    {
      InsertPairsValues(d, Pairs(src.keys, src.values), k);
      PairsValues(src, k);
      PresentIffHoldsValues(r, k);
      PresentIffHoldsValues(d, k);
      PresentIffHoldsValues(src, k);
    }
  }

  /** Folding `insert` over `ps` appends to each key's list exactly the
      values `ps` pairs with it. */
  lemma {:induction false} InsertPairsValues(d: Dictionary, ps: seq<(string, string)>, key: string)
    requires Valid(d)
    ensures ValuesOf(InsertPairs(d, ps), key) == ValuesOf(d, key) + ValuesFor(ps, key)
    decreases |ps|
  {
    if |ps| > 0 {
      var p := ps[|ps| - 1];
      var e := InsertPairs(d, ps[..|ps| - 1]);
      InsertPairsValues(d, ps[..|ps| - 1], key);
      assert InsertPairs(d, ps) == Insert(e, p.0, p.1);
      assert ValuesFor(ps, key) == ValuesFor(ps[..|ps| - 1], key) + (if p.0 == key then [p.1] else []);
      if p.0 == key {
        assert ValuesOf(Insert(e, p.0, p.1), key) == ValuesOf(e, key) + [p.1];
      } else {
        assert Value(Insert(e, p.0, p.1), key) == Value(e, key);
      }
    }
  }

  lemma {:induction false} ValuesForConcat(a: seq<(string, string)>, b: seq<(string, string)>, key: string)
    ensures ValuesFor(a + b, key) == ValuesFor(a, key) + ValuesFor(b, key)
    decreases |b|
  {
    if |b| == 0 {
      assert a + b == a;
    } else {
      assert (a + b)[..|a + b| - 1] == a + b[..|b| - 1];
      ValuesForConcat(a, b[..|b| - 1], key);
    }
  }

  lemma {:induction false} ValuesForTag(k: string, vs: seq<string>, key: string)
    ensures ValuesFor(Tag(k, vs), key) == if k == key then vs else []
    decreases |vs|
  {
    if |vs| > 0 {
      assert Tag(k, vs)[..|vs| - 1] == Tag(k, vs[..|vs| - 1]);
      ValuesForTag(k, vs[..|vs| - 1], key);
      assert vs[..|vs| - 1] + [vs[|vs| - 1]] == vs;
    }
  }

  /** The dictionary of the first `n - 1` keys. */
  function DropLast(d: Dictionary): (e: Dictionary)
    requires Valid(d)
    requires |d.keys| > 0
    ensures Valid(e)
    ensures |e.keys| == |d.keys| - 1
  {
    var n := |d.keys|;
    var e := Dictionary(d.keys[..n - 1], d.values[..n - 1]);
    assert forall i :: 0 <= i < n - 1 ==> e.keys[i] == d.keys[i] && e.values[i] == d.values[i];
    e
  }

  /** Dropping the last key leaves every other key's list where it was,
      and the dropped key absent. */
  lemma DropLastValues(d: Dictionary, key: string)
    requires Valid(d)
    requires |d.keys| > 0
    ensures key == d.keys[|d.keys| - 1] ==> ValuesOf(DropLast(d), key) == [] && ValuesOf(d, key) == d.values[|d.keys| - 1]
    ensures key != d.keys[|d.keys| - 1] ==> ValuesOf(DropLast(d), key) == ValuesOf(d, key)
  {
    var n := |d.keys|;
    var e := DropLast(d);
    if key == d.keys[n - 1] {
      assert key !in e.keys by {
        forall i | 0 <= i < n - 1 ensures e.keys[i] != key {
          assert e.keys[i] == d.keys[i];
        }
      }
    } else if key in e.keys {
      var i := Contains(e, key);
      assert d.keys[i] == key && d.values[i] == e.values[i];
    } else {
      assert key !in d.keys by {
        forall i | 0 <= i < n ensures d.keys[i] != key {
          if i < n - 1 {
            assert e.keys[i] == d.keys[i];
          }
        }
      }
    }
  }

  /** A dictionary's pairs are those of all but its last key, followed by
      the last key's. */
  lemma PairsDropLast(d: Dictionary)
    requires Valid(d)
    requires |d.keys| > 0
    ensures Pairs(d.keys, d.values)
         == Pairs(DropLast(d).keys, DropLast(d).values) + Tag(d.keys[|d.keys| - 1], d.values[|d.keys| - 1])
  {
  }

  /** The pairs of a dictionary pair each key with exactly its own list. */
  lemma {:induction false} PairsValues(d: Dictionary, key: string)
    requires Valid(d)
    ensures ValuesFor(Pairs(d.keys, d.values), key) == ValuesOf(d, key)
    decreases |d.keys|
  {
    var n := |d.keys|;
    if n > 0 {
      var e := DropLast(d);
      var last := Tag(d.keys[n - 1], d.values[n - 1]);
      PairsDropLast(d);
      PairsValues(e, key);
      ValuesForConcat(Pairs(e.keys, e.values), last, key);
      ValuesForTag(d.keys[n - 1], d.values[n - 1], key);
      DropLastValues(d, key);
    }
  }

  // ---------------------------------------------------------------------
  // The dictionary seen as a mathematical map

  /** The map a valid dictionary represents, built key by key in
      insertion order. */
  ghost function AsMap(d: Dictionary): map<string, seq<string>>
    requires |d.keys| == |d.values|
    decreases |d.keys|
  {
    var n := |d.keys|;
    if n == 0 then map[]
    else AsMap(Dictionary(d.keys[..n - 1], d.values[..n - 1]))[d.keys[n - 1] := d.values[n - 1]]
  }

  /** The value list of `key` in `m`, empty when `key` is absent. */
  ghost function Get(m: map<string, seq<string>>, key: string): seq<string> {
    if key in m then m[key] else []
  }

  /** `m` answers every lookup the way `value` answers it on `d`. */
  ghost predicate Represents(d: Dictionary, m: map<string, seq<string>>)
    requires Valid(d)
  {
    forall k :: Value(d, k) == if k in m then Some(m[k]) else None
  }

  /** `value(key)` reads the represented map. */
  lemma {:induction false} AsMapAgrees(d: Dictionary)
    requires Valid(d)
    ensures Represents(d, AsMap(d))
    decreases |d.keys|
  {
    var n := |d.keys|;
    if n > 0 {
      var e := DropLast(d);
      AsMapAgrees(e);
      var m := AsMap(d);
      assert m == AsMap(e)[d.keys[n - 1] := d.values[n - 1]];
      forall k ensures Value(d, k) == if k in m then Some(m[k]) else None {
        if k == d.keys[n - 1] {
          assert Value(d, k) == Some(d.values[n - 1]);
        } else if k in e.keys {
          var i := Contains(e, k);
          assert d.keys[i] == k && d.values[i] == e.values[i];
        } else {
          assert k !in d.keys by {
            forall i | 0 <= i < n ensures d.keys[i] != k {
              if i < n - 1 {
                assert e.keys[i] == d.keys[i];
              }
            }
          }
        }
      }
    }
  }

  lemma GetIsValuesOf(d: Dictionary, key: string)
    requires Valid(d)
    ensures ValuesOf(d, key) == Get(AsMap(d), key)
  {
    AsMapAgrees(d);
    assert Value(d, key) == if key in AsMap(d) then Some(AsMap(d)[key]) else None;
  }

  /** A map that answers every lookup like `d` is the map `d` represents. */
  lemma RepresentsUnique(d: Dictionary, m: map<string, seq<string>>)
    requires Valid(d)
    requires Represents(d, m)
    ensures AsMap(d) == m
  {
    AsMapAgrees(d);
    var a := AsMap(d);
    forall k ensures k in a <==> k in m {
      assert Value(d, k).Some? <==> k in a;
      assert Value(d, k).Some? <==> k in m;
    }
    forall k | k in m ensures a[k] == m[k] {
      assert Value(d, k) == Some(a[k]);
      assert Value(d, k) == Some(m[k]);
    }
  }

  /** `insert(key, value)` appends `value` to `key`'s entry of the map. */
  lemma InsertRefinesMap(d: Dictionary, key: string, value: string)
    requires Valid(d)
    ensures AsMap(Insert(d, key, value)) == AsMap(d)[key := Get(AsMap(d), key) + [value]]
  {
    var r := Insert(d, key, value);
    var m := AsMap(d)[key := Get(AsMap(d), key) + [value]];
    AsMapAgrees(d);
    forall k ensures Value(r, k) == if k in m then Some(m[k]) else None {
      if k == key {
        assert ValuesOf(d, key) == Get(AsMap(d), key);
      } else {
        assert Value(r, k) == Value(d, k);
      }
    }
    RepresentsUnique(r, m);
  }

  /** `remove(key)` deletes `key` from the map. */
  lemma RemoveRefinesMap(d: Dictionary, key: string)
    requires Valid(d)
    ensures AsMap(Remove(d, key)) == AsMap(d) - {key}
  {
    var r := Remove(d, key);
    var m := AsMap(d) - {key};
    AsMapAgrees(d);
    forall k ensures Value(r, k) == if k in m then Some(m[k]) else None {
      if k != key {
        assert Value(r, k) == Value(d, k);
      }
    }
    RepresentsUnique(r, m);
  }

  /** `replace(key, value)` overwrites `key`'s entry when there is one. */
  lemma ReplaceRefinesMap(d: Dictionary, key: string, value: string)
    requires Valid(d)
    ensures key in AsMap(d) ==> AsMap(Replace(d, key, value)) == AsMap(d)[key := [value]]
    ensures key !in AsMap(d) ==> AsMap(Replace(d, key, value)) == AsMap(d)
  {
    var r := Replace(d, key, value);
    AsMapAgrees(d);
    if key in AsMap(d) {
      var m := AsMap(d)[key := [value]];
      forall k ensures Value(r, k) == if k in m then Some(m[k]) else None {
        if k != key {
          assert Value(r, k) == Value(d, k);
        }
      }
      RepresentsUnique(r, m);
    }
  }

  /** `insert(source)` concatenates, key by key, the two maps' lists. */
  lemma MergeRefinesMap(d: Dictionary, src: Dictionary)
    requires Valid(d)
    requires Valid(src)
    ensures forall k :: Get(AsMap(InsertPairs(d, Pairs(src.keys, src.values))), k)
                     == Get(AsMap(d), k) + Get(AsMap(src), k)
  {
    var r := InsertPairs(d, Pairs(src.keys, src.values));
    forall k ensures Get(AsMap(r), k) == Get(AsMap(d), k) + Get(AsMap(src), k) {
      InsertPairsValues(d, Pairs(src.keys, src.values), k);
      PairsValues(src, k);
      GetIsValuesOf(r, k);
      GetIsValuesOf(d, k);
      GetIsValuesOf(src, k);
    }
  }
}
