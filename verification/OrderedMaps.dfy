/** JavaScript's `Map`: a finite map that remembers the order in which its keys were first set. */
module OrderedMaps {

  datatype Option<+T> = None | Some(value: T)

  datatype RawMap<K(==,!new), V> = OrderedMap(order: seq<K>, at: map<K, V>) {

    ghost predicate Valid() {
      && (forall k :: k in order <==> k in at)
      && Distinct(order)
    }

    function Get(k: K): Option<V> {
      if k in at then Some(at[k]) else None
    }

    /** `map.set(k, v)`: an old key keeps its place, a new one goes to the end. */
    function Put(k: K, v: V): RawMap<K, V> {
      OrderedMap(if k in at then order else order + [k], at[k := v])
    }

    /** `Array.from(map.values())`. */
    function Values(): (vs: seq<V>)
      requires Valid()
      ensures |vs| == |order|
      ensures forall i :: 0 <= i < |order| ==> order[i] in at && vs[i] == at[order[i]]
    {
      seq(|order|, i requires 0 <= i < |order| => assert order[i] in order; at[order[i]])
    }

    lemma PutKeepsValid(k: K, v: V)
      requires Valid()
      ensures Put(k, v).Valid()
    {
      if k !in at {
        assert forall i :: 0 <= i < |order| ==> order[i] in order;
      }
    }
  }

  ghost predicate Distinct<T>(xs: seq<T>) {
    forall i, j :: 0 <= i < j < |xs| ==> xs[i] != xs[j]
  }
}
