/**
 * A Python dict as the model holds it: a map plus the order in which its
 * keys were first inserted (re-assigning a key keeps its place).
 */
module Dicts {

  /** `list(d.values())`: the values in key-insertion order. */
  method Values<K, V>(order: seq<K>, d: map<K, V>) returns (values: seq<V>)
    requires forall j :: 0 <= j < |order| ==> order[j] in d
    ensures |values| == |order|
    ensures forall j :: 0 <= j < |order| ==> values[j] == d[order[j]]
  {
    values := [];
    var j := 0;
    while j < |order|
      invariant 0 <= j <= |order|
      invariant |values| == j
      invariant forall x :: 0 <= x < j ==> values[x] == d[order[x]]
    {
      values := values + [d[order[j]]];
      j := j + 1;
    }
  }
}
