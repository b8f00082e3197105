/** The profanity predicate of utils.py: a text is flagged when one of the
    listed words occurs anywhere in its lower-cased form. */
module Profanity {
  import opened Text

  /** The listed words; all of them are lower case. */
  const PROFANITY: set<string> := {"badword1", "badword2"}

  /** `contains_profanity`: the loop over the listed words returns true at the
      first word found in the lower-cased text, false when none is found. */
  function ContainsProfanity(text: string): bool {
    var t := Lower(text);
    exists w | w in PROFANITY :: Occurs(w, t)
  }

  /** Flagged exactly when some listed word is a substring of the lower-cased text. */
  lemma ContainsProfanitySpec(text: string)
    ensures ContainsProfanity(text) <==> exists w :: w in PROFANITY && IsSubstring(w, Lower(text))
  {
    forall w | w in PROFANITY
      ensures Occurs(w, Lower(text)) <==> IsSubstring(w, Lower(text))
    {
      OccursIff(w, Lower(text));
    }
  }

  /** The check is case-insensitive: lower-casing the input first changes nothing. */
  lemma CaseInsensitive(s: string)
    ensures ContainsProfanity(s) == ContainsProfanity(Lower(s))
  {
    LowerIdempotent(s);
  }

  /** Matching is by substring, not by whole word: a listed word with any text
      around it is flagged. */
  lemma EmbeddedWordFlagged(a: string, w: string, b: string)
    requires w in PROFANITY
    ensures ContainsProfanity(a + w + b)
  {
    assert Lower(w) == w;
    LowerConcat(a + w, b);
    LowerConcat(a, w);
    assert OccursAt(w, w, 0);
    SubstringOfEnclosing(w, w, Lower(a), Lower(b));
    ContainsProfanitySpec(a + w + b);
  }

  /** "xbadword1y" is flagged, as is an upper-case spelling. */
  lemma FlaggedExamples()
    ensures ContainsProfanity("xbadword1y")
    ensures ContainsProfanity("BadWord2")
  {
    assert "xbadword1y" == "x" + "badword1" + "y";
    EmbeddedWordFlagged("x", "badword1", "y");
    assert Lower("BadWord2") == "badword2" == "" + "badword2" + "";
    EmbeddedWordFlagged("", "badword2", "");
    CaseInsensitive("BadWord2");
  }

  /** A text shorter than every listed word, the empty text among them, is not flagged. */
  lemma ShortTextNotFlagged(s: string)
    requires forall w :: w in PROFANITY ==> |s| < |w|
    ensures !ContainsProfanity(s)
  {
    ContainsProfanitySpec(s);
    forall w | w in PROFANITY
      ensures !IsSubstring(w, Lower(s))
    {
      assert |Lower(s)| < |w|;
    }
  }

  /** Monotonicity: once a text is flagged, every text containing it is flagged. */
  lemma FlaggedIsMonotone(s: string, a: string, b: string)
    requires ContainsProfanity(s)
    ensures ContainsProfanity(a + s + b)
  {
    ContainsProfanitySpec(s);
    var w :| w in PROFANITY && IsSubstring(w, Lower(s));
    LowerConcat(a + s, b);
    LowerConcat(a, s);
    SubstringOfEnclosing(w, Lower(s), Lower(a), Lower(b));
    ContainsProfanitySpec(a + s + b);
  }
}
