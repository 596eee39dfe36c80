/** The character classifier of src/utils.rs: a pure, total map from a character
    and two configuration flags to one of three kinds. */
module Utils {

  /** The three kinds a character can have: blank, a word character, or punctuation. */
  datatype CharKind = Whitespace | Punctuation | Word

  /** Rust's Unicode-aware `char::is_whitespace` and `char::is_alphanumeric`. Their
      tables are not part of the model: every result below holds for any pair of
      predicates. */
  datatype UnicodeTables = UnicodeTables(isWhitespace: char -> bool, isAlphanumeric: char -> bool)

  /** Classifier configuration, built fluently: each builder returns a new value. */
  datatype CharClassifier = CharClassifier(forCompletion: bool, ignorePunctuation: bool)
  {
    static function New(): (cl: CharClassifier)
      ensures !cl.forCompletion && !cl.ignorePunctuation
    {
      CharClassifier(false, false)
    }

    /** Sets `forCompletion` and keeps the other flag. */
    function ForCompletion(forCompletion: bool): (cl: CharClassifier)
      ensures cl.forCompletion == forCompletion
      ensures cl.ignorePunctuation == this.ignorePunctuation
    {
      this.(forCompletion := forCompletion)
    }

    /** Sets `ignorePunctuation` and keeps the other flag. */
    function IgnorePunctuation(ignorePunctuation: bool): (cl: CharClassifier)
      ensures cl.ignorePunctuation == ignorePunctuation
      ensures cl.forCompletion == this.forCompletion
    {
      this.(ignorePunctuation := ignorePunctuation)
    }

    /** Classifies `c`, with `ignorePunctuation` given explicitly instead of taken
        from the configuration. Whitespace is checked first; then alphanumerics and
        the underscore are words; anything else is punctuation unless the override
        folds it into words. */
    function KindWith(u: UnicodeTables, c: char, ignorePunctuation: bool): (k: CharKind)
      ensures k == Whitespace <==> u.isWhitespace(c)
      ensures !u.isWhitespace(c) && (u.isAlphanumeric(c) || c == '_') ==> k == Word
      ensures k == Punctuation <==> !u.isWhitespace(c) && !u.isAlphanumeric(c) && c != '_' && !ignorePunctuation
      ensures ignorePunctuation ==> k != Punctuation
    {
      if u.isWhitespace(c) then Whitespace
      else if u.isAlphanumeric(c) || c == '_' then Word
      else if ignorePunctuation then Word
      else Punctuation
    }

    /** Classifies `c` under this configuration. */
    function Kind(u: UnicodeTables, c: char): (k: CharKind)
      ensures k == Whitespace <==> u.isWhitespace(c)
      ensures k == Word <==> !u.isWhitespace(c) && (u.isAlphanumeric(c) || c == '_' || this.ignorePunctuation)
    {
      KindWith(u, c, this.ignorePunctuation)
    }

    function IsWhitespace(u: UnicodeTables, c: char): (b: bool)
      ensures b <==> u.isWhitespace(c)
    {
      Kind(u, c) == Whitespace
    }

    function IsWord(u: UnicodeTables, c: char): (b: bool)
      ensures b <==> !u.isWhitespace(c) && (u.isAlphanumeric(c) || c == '_' || this.ignorePunctuation)
    {
      Kind(u, c) == Word
    }

    function IsPunctuation(u: UnicodeTables, c: char): (b: bool)
      ensures b <==> !u.isWhitespace(c) && !u.isAlphanumeric(c) && c != '_' && !this.ignorePunctuation
    {
      Kind(u, c) == Punctuation
    }
  }

  /** `Kind` is `KindWith` at the configured override. */
  lemma KindIsKindWithConfigured(cl: CharClassifier, u: UnicodeTables, c: char)
    ensures cl.Kind(u, c) == cl.KindWith(u, c, cl.ignorePunctuation)
  {
  }

  /** The `forCompletion` flag has no effect on classification. */
  lemma ForCompletionInert(cl: CharClassifier, u: UnicodeTables, c: char, b: bool)
    ensures cl.ForCompletion(b).Kind(u, c) == cl.Kind(u, c)
    ensures cl.ForCompletion(b).KindWith(u, c, false) == cl.KindWith(u, c, false)
  {
  }

  /** Exactly one of the three kind tests holds for every character. */
  lemma ExactlyOneKind(cl: CharClassifier, u: UnicodeTables, c: char)
    ensures cl.IsWhitespace(u, c) || cl.IsWord(u, c) || cl.IsPunctuation(u, c)
    ensures !(cl.IsWhitespace(u, c) && cl.IsWord(u, c))
    ensures !(cl.IsWhitespace(u, c) && cl.IsPunctuation(u, c))
    ensures !(cl.IsWord(u, c) && cl.IsPunctuation(u, c))
  {
  }
}
