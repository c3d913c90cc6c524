/** Invariants of the lower layers are kept folded for the layers above: each is
    stated under a quantifier that only the mention of its key below opens. */
module Folding {

  ghost predicate UnfoldBits(u: bool) { true }

  ghost predicate UnfoldFrames(u: bool) { true }

  ghost predicate UnfoldTables(u: bool) { true }

  ghost predicate UnfoldLinks(u: bool) { true }

  ghost predicate UnfoldCounts(u: bool) { true }

  ghost predicate UnfoldRoles(u: bool) { true }

  ghost predicate UnfoldChanges(u: bool) { true }

  ghost predicate UnfoldHeap(u: bool) { true }

  ghost predicate UnfoldKernel(u: bool) { true }
}
