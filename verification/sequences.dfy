/** Sequence facts shared by the dictionary and the tree: the forward linear
    scan both of them perform (`std::find` over the keys, the loop over the
    children in `get_value(node_t)`), and the uniqueness the keys keep. */
module Sequences {

  /** No element occurs twice. */
  predicate Unique<X(==)>(s: seq<X>) {
    forall i, j :: 0 <= i < j < |s| ==> s[i] != s[j]
  }

  /** The elements of `s`, forgetting order and multiplicity. */
  ghost function Elements<X>(s: seq<X>): set<X> {
    set x | x in s
  }

  /** Position of the first occurrence of `x` in `s`, or -1 when `x` does
      not occur: a scan from the front that stops at the first match. */
  function IndexOf<X(==)>(s: seq<X>, x: X): (r: int)
    ensures -1 <= r < |s|
    ensures r == -1 <==> x !in s
    ensures 0 <= r ==> s[r] == x && forall j :: 0 <= j < r ==> s[j] != x
  {
    if |s| == 0 then -1
    else if s[0] == x then 0
    else
      var i := IndexOf(s[1..], x);
      if i < 0 then -1 else i + 1
  }

  /** A sequence without repetitions has as many distinct elements as it
      has positions. */
  lemma {:induction false} UniqueCardinality<X>(s: seq<X>)
    requires Unique(s)
    ensures |Elements(s)| == |s|
  {
    if |s| > 0 {
      var t := s[1..];
      assert Unique(t) by {
        forall i, j | 0 <= i < j < |t| ensures t[i] != t[j] {
          assert t[i] == s[i + 1] && t[j] == s[j + 1];
        }
      }
      UniqueCardinality(t);
      assert s[0] !in t by {
        forall j | 0 <= j < |t| ensures t[j] != s[0] {
          assert t[j] == s[j + 1];
        }
      }
      assert Elements(s) == {s[0]} + Elements(t) by {
        assert s == [s[0]] + t;
      }
    }
  }

  /** `s` with the element at position `i` erased (`vector::erase`). */
  function RemoveAt<X>(s: seq<X>, i: int): (r: seq<X>)
    requires 0 <= i < |s|
    ensures |r| == |s| - 1
    ensures forall j :: 0 <= j < i ==> r[j] == s[j]
    ensures forall j :: i <= j < |r| ==> r[j] == s[j + 1]
  {
    s[..i] + s[i + 1..]
  }
}
