/** Worked inputs of the slug deriver. */
module SlugExamples {
  import opened SlugDeriver

  /** A white-space run becomes `-`. */
  lemma SpaceBecomesHyphen()
    ensures SlugFromString("a b") == "a-b"
  {
  }

  /** A literal `-` is deleted, so the slug above does not come back unchanged. */
  lemma HyphenIsDeleted()
    ensures SlugFromString("a-b") == "ab"
  {
  }

  /** Nothing trims the outer white space. */
  lemma OuterSpaceKept()
    ensures SlugFromString(" a ") == "-a-"
  {
  }

  /** An accented capital loses its accent and its case. */
  lemma AccentStripped()
    ensures SlugFromString("É") == "e"
  {
  }

  /** Punctuation alone leaves nothing. */
  lemma PunctuationOnly()
    ensures SlugFromString("!?") == ""
  {
  }
}
