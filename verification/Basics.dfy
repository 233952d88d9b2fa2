/** What several components share. */
module Basics {

  datatype Option<+T> = None | Some(value: T)

  lemma SubsetSize<T>(part: set<T>, whole: set<T>)
    requires part <= whole
    ensures |part| <= |whole| && (|part| == |whole| ==> part == whole)
  {
    assert whole == part + (whole - part);
  }
}
