/** Which of two candidates each decision takes first, in the candidates' own fields. */
module Precedence {
  import opened Options
  import opened Utf16
  import opened Selections

  /** Required blocks: by identifier. */
  predicate NamedFirst(a: Candidate, b: Candidate) { Less(a.id, b.id) }

  /** Optional blocks: the higher score, then the smaller identifier. */
  predicate ScoresHigher(a: Candidate, b: Candidate) {
    a.score > b.score || (a.score == b.score && Less(a.id, b.id))
  }

  /** Minimums of one category: the lower cost, then the higher score, then the smaller identifier. */
  predicate CostsLess(a: Candidate, b: Candidate) {
    || a.tokens < b.tokens
    || (a.tokens == b.tokens && a.score > b.score)
    || (a.tokens == b.tokens && a.score == b.score && Less(a.id, b.id))
  }

  /** Minimums: category by category. */
  predicate ReservedFirst(a: Candidate, b: Candidate) {
    a.category.Some? && b.category.Some? &&
    (Less(a.category.value, b.category.value) || (a.category == b.category && CostsLess(a, b)))
  }

  /** The pool of the rescue: declared categories in their order, then no category; within one by identifier. */
  predicate PooledFirst(a: Candidate, b: Candidate) {
    || (a.category.Some? && b.category.None?)
    || (a.category.Some? && b.category.Some? && Less(a.category.value, b.category.value))
    || (a.category == b.category && Less(a.id, b.id))
  }

  /** Giving back: the lower score, then the larger identifier. */
  predicate GivenBackFirst(a: Candidate, b: Candidate) {
    a.score < b.score || (a.score == b.score && Less(b.id, a.id))
  }
}
