/** Picking elements of a list and keeping their order. */
module Picking {
  /** `at` has exactly the places of `which`, in order. */
  ghost predicate Ascending(at: seq<nat>, which: set<nat>) {
    && (forall i, j :: 0 <= i < j < |at| ==> at[i] < at[j])
    && forall k :: k in at <==> k in which
  }

  lemma AscendingMore(at: seq<nat>, which: set<nat>, k: nat)
    requires Ascending(at, which) && forall w <- which :: w < k
    ensures Ascending(at + [k], which + {k})
  {
    var more := at + [k];
    forall i, j | 0 <= i < j < |more| ensures more[i] < more[j] {
      assert at[i] in at;
    }
  }
}
