/** The entities the core passes around.  Tokenisation, the greedy string
    tiling matcher and the similarity formulas live outside this model; a
    submission is reduced to its name and its token list, which is absent
    (`null` in the source) when tokenisation failed or the list is not loaded. */
module Comparisons {
  import opened Wrappers

  /** A token is compared by its type tag only. */
  type TokenType = int

  datatype Submission = Submission(name: string, tokenList: Option<seq<TokenType>>)
  {
    predicate HasTokens() { tokenList.Some? }
  }

  /** The matcher's verdict on one pair; `similarity` is a percentage. */
  datatype Comparison = Comparison(first: Submission, second: Submission, similarity: real)

  /** The submissions of one run and the optional base code. */
  datatype SubmissionSet = SubmissionSet(submissions: seq<Submission>, baseCode: Option<Submission>)
  {
    predicate HasBaseCode() { baseCode.Some? }
  }
}
