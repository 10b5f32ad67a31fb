/** Locations: a namespace on a cluster, and the two orders they are listed in. */
module Pairs {
  import opened Ordering

  datatype Pair = Pair(namespace: string, cluster: string)

  predicate ByCluster(p: Pair, q: Pair) {
    LexLe(p.cluster, p.namespace, q.cluster, q.namespace)
  }

  predicate ByNamespace(p: Pair, q: Pair) {
    LexLe(p.namespace, p.cluster, q.namespace, q.cluster)
  }

  lemma PairOrders()
    ensures TotalOrder(ByCluster) && TotalOrder(ByNamespace)
  {
    StrLeOrder();
  }

  /** A set as a list, in any order. */
  method ListPairs(pairs: set<Pair>) returns (list: seq<Pair>)
    ensures Distinct(list) && Elems(list) == pairs
  {
    list := [];
    var rest := pairs;
    while rest != {}
      invariant rest <= pairs && Distinct(list) && Elems(list) == pairs - rest
      decreases rest
    {
      var p :| p in rest;
      assert p !in Elems(list);
      assert Elems(list + [p]) == Elems(list) + {p};
      list := list + [p];
      rest := rest - {p};
    }
  }
}
