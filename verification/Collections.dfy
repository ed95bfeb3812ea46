/** Sets and sequences. */
module Collections {

  function Elements<T>(s: seq<T>): set<T> {
    set x | x in s
  }

  lemma SubsetSize<T>(a: set<T>, b: set<T>)
    requires a <= b
    ensures |a| <= |b|
    ensures |a| == |b| <==> a == b
  {
    var rest := b - a;
    assert b == a + rest && |b| == |a| + |rest|;
    if a != b {
      assert rest != {};
    }
  }

  lemma NoElements<T>(s: seq<T>)
    ensures Elements(s) == {} <==> s == []
  {
    assert s != [] ==> s[0] in Elements(s);
  }
}
