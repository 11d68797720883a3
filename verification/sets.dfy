/** Facts about finite sets that the proofs of several modules share. */
module Sets {

  /** A non-empty set has a member; `x` is one. */
  lemma HasMember<T>(s: set<T>) returns (x: T)
    requires s != {}
    ensures x in s
  {
    if forall y :: y !in s {
      assert false;
    }
    x :| x in s;
  }

  /** A subset is no larger than its superset. */
  lemma {:induction false} SubsetNoLarger<T>(a: set<T>, b: set<T>)
    requires a <= b
    ensures |a| <= |b|
    decreases |a|
  {
    if a != {} {
      var x := HasMember(a);
      SubsetNoLarger(a - {x}, b - {x});
    }
  }
}
