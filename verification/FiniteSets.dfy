/** Facts about finite sets shared by the other modules. */
module FiniteSets {

  ghost function AnElement<T>(s: set<T>): (x: T)
    requires s != {}
    ensures x in s
  {
    var x :| x in s;
    x
  }

  lemma SubsetSize<T>(s: set<T>, t: set<T>)
    requires s <= t
    ensures |s| <= |t|
    ensures |s| == |t| ==> s == t
  {
    var rest := t - s;
    assert t == s + rest;
    assert |t| == |s| + |rest|;
    if |s| == |t| {
      assert rest == {};
    }
  }
}
