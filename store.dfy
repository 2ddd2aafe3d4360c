/** The document-store read used by the `read_*` operations. */
module Store {

  /**
   * `find({}, {"_id": 0})` on a collection held as a map from key to
   * document: every stored document exactly once, in some order, each next
   * to the key it is stored under.
   */
  method ListAll<V>(m: map<string, V>) returns (docs: seq<V>, keys: seq<string>)
    ensures |docs| == |keys| == |m|
    ensures forall i :: 0 <= i < |keys| ==> keys[i] in m && docs[i] == m[keys[i]]
    ensures forall k :: k in m ==> k in keys
    ensures forall i, j :: 0 <= i < j < |keys| ==> keys[i] != keys[j]
  {
    docs, keys := [], [];
    var rest := m.Keys;
    while rest != {}
      invariant rest <= m.Keys
      invariant |docs| == |keys| && |keys| + |rest| == |m|
      invariant forall i :: 0 <= i < |keys| ==> keys[i] in m && keys[i] !in rest && docs[i] == m[keys[i]]
      invariant forall k :: k in m && k !in rest ==> k in keys
      invariant forall i, j :: 0 <= i < j < |keys| ==> keys[i] != keys[j]
      decreases rest
    {
      var k :| k in rest;
      docs, keys := docs + [m[k]], keys + [k];
      rest := rest - {k};
    }
  }
}
