// A set of numbers that is not empty has a member, in the form `:|` needs.

module Sets {

  lemma {:induction false} HasMember(s: set<int>)
    ensures s == {} || exists x :: x in s
  {
    if forall x :: x !in s {
      assert s == {};
    }
  }
}
