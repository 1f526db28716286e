/** Small facts about finite collections, used when the model picks an element. */
module Sets {

  /** A set that is not empty has an element. */
  lemma NonEmpty(s: set<int>)
    requires s != {}
    ensures exists x :: x in s
  {
    if forall x :: x !in s {
      assert false;
    }
  }

  /** A multiset that is not empty has an element. */
  lemma NonEmptyBag(b: multiset<int>)
    requires b != multiset{}
    ensures exists x :: x in b
  {
    if forall x :: x !in b {
      assert false;
    }
  }
}
