/** Optional values, and small facts about sets and sequences. */
module Wrappers {
  datatype Option<+T> = None | Some(value: T)

  lemma Member<T>(s: set<T>) returns (x: T)
    requires s != {}
    ensures x in s
  {
    x :| x in s;
  }

  lemma SliceOfSlice<T>(s: seq<T>, lo: nat, hi: nat, a: nat, b: nat)
    requires lo <= hi <= |s| && a <= b <= hi - lo
    ensures s[lo..hi][a..b] == s[lo + a..lo + b]
  {
    var x, y := s[lo..hi][a..b], s[lo + a..lo + b];
    forall i | 0 <= i < b - a
      ensures x[i] == y[i]
    {
      assert x[i] == s[lo..hi][a + i] == s[lo + a + i] == y[i];
    }
    assert x == y;
  }
}
