/** The marks of pages that host code (self_mod.hpp), shared by the TLB and the code cache. */
module PageMarks {
  predicate Executed(executed: seq<bool>, page: nat) { page < |executed| && executed[page] }

  ghost predicate SameMarks(a: seq<bool>, b: seq<bool>) { forall page: nat :: Executed(a, page) == Executed(b, page) }
}
