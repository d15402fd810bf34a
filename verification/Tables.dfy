/** Members of finite sets and rows of finite maps. */
module Tables {

  lemma SomeMember<T>(s: set<T>) returns (t: T)
    requires s != {}
    ensures t in s
  {
    t :| t in s;
  }

  lemma SameRows<K, V>(a: map<K, V>, b: map<K, V>)
    requires a.Keys == b.Keys && forall k :: k in a ==> a[k] == b[k]
    ensures a == b
  {
  }
}
