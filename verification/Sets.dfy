/**
  A few facts about finite sets, of ids for the most part, and their sizes.
 */
module Sets {
  lemma Inhabited(s: set<int>)
    ensures s != {} ==> exists x :: x in s
    ensures |s| > 0 ==> exists x :: x in s
  {
    if forall x :: x !in s { assert s == {}; }
  }

  lemma Only<T>(s: set<T>, x: T)
    requires |s| == 1 && x in s
    ensures s == {x}
  {
    Resize(s, x);
    assert |s - {x}| == 0;
  }

  lemma Resize<T>(s: set<T>, x: T)
    ensures |s + {x}| == |s| + (if x in s then 0 else 1)
    ensures |s - {x}| == |s| - (if x in s then 1 else 0)
  {}
}
