/** The response-label normaliser of `get_llm_sentiment`: the free-form text the
    model server replies with is stripped, title-cased and matched against the
    three sentiment labels. */
module LabelParsing {
  import opened AsciiText

  const POSITIVE: string := "Positive"
  const NEGATIVE: string := "Negative"
  const NEUTRAL: string := "Neutral"
  const PARSE_FAILED: string := "Error: Parse Failed"

  /** The accepted labels, in the order the keyword fallback searches them. */
  const LABELS: seq<string> := [POSITIVE, NEGATIVE, NEUTRAL]

  /** The labels the normaliser can return. */
  predicate IsParseResult(s: string) {
    s == POSITIVE || s == NEGATIVE || s == NEUTRAL || s == PARSE_FAILED
  }

  /** The matching step on the stripped, title-cased text: accept an exact
      label; otherwise return the first label (in the order of LABELS) that
      occurs in the text; otherwise report a parse failure. */
  function MatchLabel(text: string): (normalized: string)
    ensures IsParseResult(normalized)
  {
    if text in LABELS then text
    else if Contains(text, POSITIVE) then POSITIVE
    else if Contains(text, NEGATIVE) then NEGATIVE
    else if Contains(text, NEUTRAL) then NEUTRAL
    else PARSE_FAILED
  }

  /** What the loop of `get_llm_sentiment` does with the text of a reply:
      strip, title-case, match. */
  function NormalizeLabel(raw: string): (normalized: string)
    ensures IsParseResult(normalized)
  {
    MatchLabel(Title(Strip(raw)))
  }

  /** The first-match-wins rule, stated against the substring relation: each
      label is returned exactly when it occurs in the text and no label
      searched before it does; the parse fails exactly when none of the three
      occurs. The exact-match test never decides anything the keyword search
      would not have decided the same way. */
  lemma MatchFirstWins(text: string)
    ensures && (MatchLabel(text) == POSITIVE <==> Occurs(POSITIVE, text))
      && (MatchLabel(text) == NEGATIVE <==> !Occurs(POSITIVE, text) && Occurs(NEGATIVE, text))
      && (MatchLabel(text) == NEUTRAL <==>
            !Occurs(POSITIVE, text) && !Occurs(NEGATIVE, text) && Occurs(NEUTRAL, text))
      && (MatchLabel(text) == PARSE_FAILED <==>
            !Occurs(POSITIVE, text) && !Occurs(NEGATIVE, text) && !Occurs(NEUTRAL, text))
  {
    if text == POSITIVE {
      assert OccursAt(POSITIVE, text, 0);
    } else if text == NEGATIVE {
      assert OccursAt(NEGATIVE, text, 0);
      NoOccurrence(POSITIVE, NEGATIVE);
    } else if text == NEUTRAL {
      assert OccursAt(NEUTRAL, text, 0);
      NoOccurrence(POSITIVE, NEUTRAL);
      NoOccurrence(NEGATIVE, NEUTRAL);
    }
  }

  /** The same rule for a whole reply: it is decided by which labels occur in
      the reply once stripped and title-cased. */
  lemma FirstMatchWins(raw: string)
    ensures var text := Title(Strip(raw));
      && (NormalizeLabel(raw) == POSITIVE <==> Occurs(POSITIVE, text))
      && (NormalizeLabel(raw) == NEGATIVE <==> !Occurs(POSITIVE, text) && Occurs(NEGATIVE, text))
      && (NormalizeLabel(raw) == NEUTRAL <==>
            !Occurs(POSITIVE, text) && !Occurs(NEGATIVE, text) && Occurs(NEUTRAL, text))
      && (NormalizeLabel(raw) == PARSE_FAILED <==>
            !Occurs(POSITIVE, text) && !Occurs(NEGATIVE, text) && !Occurs(NEUTRAL, text))
  {
    MatchFirstWins(Title(Strip(raw)));
  }

  /** A text longer than `s`, or as long and different, does not occur in `s`. */
  lemma NoOccurrence(sub: string, s: string)
    requires |sub| > |s| || (|sub| == |s| && sub != s)
    ensures !Occurs(sub, s)
  {
  }

  /** A text shorter than every label matches none of them. */
  lemma ShortTextFails(text: string)
    requires |text| < |NEUTRAL|
    ensures MatchLabel(text) == PARSE_FAILED
  {
    NoOccurrence(POSITIVE, text);
    NoOccurrence(NEGATIVE, text);
    NoOccurrence(NEUTRAL, text);
    MatchFirstWins(text);
  }

  /** A reply that is shorter than every label once stripped fails to parse. */
  lemma ShortReplyFails(raw: string)
    requires |Strip(raw)| < |NEUTRAL|
    ensures NormalizeLabel(raw) == PARSE_FAILED
  {
    ShortTextFails(Title(Strip(raw)));
  }

  /** A reply whose stripped, title-cased text is a label is that label. */
  lemma ExactLabel(raw: string, word: string)
    requires word in LABELS && Title(Strip(raw)) == word
    ensures NormalizeLabel(raw) == word
  {
  }

  /** A reply whose stripped, title-cased text contains a label does not fail
      to parse, and one containing Positive is Positive. */
  lemma LabelOccurs(raw: string, word: string)
    requires word in LABELS && Occurs(word, Title(Strip(raw)))
    ensures NormalizeLabel(raw) != PARSE_FAILED
    ensures word == POSITIVE ==> NormalizeLabel(raw) == POSITIVE
  {
    MatchFirstWins(Title(Strip(raw)));
  }

  /** A word whose first letter is upper case and whose other letters are lower
      case. */
  predicate IsTitleWord(w: string) {
    |w| > 0 && IsUpper(w[0]) && forall i :: 0 < i < |w| ==> IsLower(w[i])
  }

  /** Each label is a title-cased word. */
  lemma LabelIsTitleWord(word: string)
    requires word in LABELS
    ensures IsTitleWord(word)
  {
  }

  /** Any spelling of a title-cased word that differs from it only in case is
      title-cased back into that word. */
  lemma TitleOfCaseVariant(u: string, w: string)
    requires IsTitleWord(w)
    requires |u| == |w| && forall i :: 0 <= i < |u| ==> ToLower(u[i]) == ToLower(w[i])
    ensures Title(u) == w
  {
    forall i | 0 <= i < |u|
      ensures Title(u)[i] == w[i]
    {
      TitleAt(u, i);
      SameCase(u[i], w[i]);
      if i > 0 {
        SameCase(u[i - 1], w[i - 1]);
      }
    }
  }

  /** Title-casing a title-cased word changes nothing. */
  lemma TitleOfTitleWord(w: string)
    requires IsTitleWord(w)
    ensures Title(w) == w
  {
    TitleOfCaseVariant(w, w);
  }

  /** Case-insensitive exact match: a reply that, once its surrounding white
      space is stripped, spells one of the labels in any mix of upper and lower
      case is returned as that label. */
  lemma CaseInsensitiveLabel(raw: string, word: string)
    requires word in LABELS
    requires var u := Strip(raw);
      |u| == |word| && forall i :: 0 <= i < |u| ==> ToLower(u[i]) == ToLower(word[i])
    ensures NormalizeLabel(raw) == word
  {
    LabelIsTitleWord(word);
    TitleOfCaseVariant(Strip(raw), word);
    ExactLabel(raw, word);
  }

  /** A title-cased word spelled in any case at the start of a word of `u`
      (at its very start or after a character that is not a letter) appears
      in `Title(u)` as that word. */
  lemma TitleFindsWord(u: string, i: nat, w: string)
    requires IsTitleWord(w)
    requires i + |w| <= |u| && (i == 0 || !IsLetter(u[i - 1]))
    requires forall k :: 0 <= k < |w| ==> ToLower(u[i + k]) == ToLower(w[k])
    ensures OccursAt(w, Title(u), i)
  {
    var t := Title(u);
    forall k | 0 <= k < |w|
      ensures t[i + k] == w[k]
    {
      TitleAt(u, i + k);
      SameCase(u[i + k], w[k]);
      if k > 0 {
        SameCase(u[i + k - 1], w[k - 1]);
      }
    }
    assert t[i..i + |w|] == w;
  }

  /** A label spelled in any case at the start of a word of the stripped reply
      is found by the keyword search, so the reply does not fail to parse. */
  lemma KeywordFound(raw: string, i: nat, word: string)
    requires word in LABELS
    requires var u := Strip(raw);
      && i + |word| <= |u|
      && (i == 0 || !IsLetter(u[i - 1]))
      && forall k :: 0 <= k < |word| ==> ToLower(u[i + k]) == ToLower(word[k])
    ensures Occurs(word, Title(Strip(raw)))
    ensures NormalizeLabel(raw) != PARSE_FAILED
  {
    var text := Title(Strip(raw));
    assert Occurs(word, text) by {
      LabelIsTitleWord(word);
      TitleFindsWord(Strip(raw), i, word);
    }
    LabelOccurs(raw, word);
  }

  /** A label spelled all in upper case is read as that label. */
  lemma UpperCaseLabel(word: string)
    requires word in LABELS
    ensures NormalizeLabel(Upper(word)) == word
  {
    LabelIsTitleWord(word);
    var u := Upper(word);
    StripUnpadded(u);
    CaseInsensitiveLabel(u, word);
  }

  /** A label spelled all in lower case is read as that label. */
  lemma LowerCaseLabel(word: string)
    requires word in LABELS
    ensures NormalizeLabel(Lower(word)) == word
  {
    LabelIsTitleWord(word);
    var l := Lower(word);
    StripUnpadded(l);
    CaseInsensitiveLabel(l, word);
  }

  /** A lower-case reply padded with a space and a newline is its label. */
  lemma PaddedReply()
    ensures NormalizeLabel(" positive\n") == POSITIVE
  {
    PaddedText();
    ExactLabel(" positive\n", POSITIVE);
  }

  // The steps of PaddedReply, each in a lemma of its own.

  lemma PaddedText()
    ensures Title(Strip(" positive\n")) == POSITIVE
  {
    PaddedStrip();
    LowerCaseTitle();
  }

  lemma PaddedStrip()
    ensures Strip(" positive\n") == "positive"
  {
    StripPadded(" ", "positive", "\n");
    assert " " + "positive" + "\n" == " positive\n";
  }

  lemma LowerCaseTitle()
    ensures Title("positive") == POSITIVE
  {
    LabelIsTitleWord(POSITIVE);
    TitleOfCaseVariant("positive", POSITIVE);
  }

  /** A label inside a sentence is found by the keyword search. */
  lemma KeywordInSentence()
    ensures NormalizeLabel("I think this is Positive overall") == POSITIVE
  {
    PositiveAt("I think this is Positive overall", 16);
  }

  /** The first label searched wins over a later one: this reply means
      "negative" and is read as Positive. */
  lemma FirstLabelWinsExample()
    ensures NormalizeLabel("not positive, negative") == POSITIVE
  {
    PositiveAt("not positive, negative", 4);
  }

  /** Title-casing restarts after a hyphen, so a negated label is read as the
      label itself. */
  lemma HyphenatedLabelExample()
    ensures NormalizeLabel("non-positive") == POSITIVE
  {
    PositiveAt("non-positive", 4);
  }

  /** A reply with no label is a parse failure. */
  lemma NoLabelExample()
    ensures NormalizeLabel("Meh") == PARSE_FAILED
  {
    StripUnpadded("Meh");
    ShortReplyFails("Meh");
  }

  /** An empty reply (also what a reply without a `response` field gives) is a
      parse failure. */
  lemma EmptyReplyExample()
    ensures NormalizeLabel("") == PARSE_FAILED
  {
    ShortReplyFails("");
  }

  /** Helper for the examples: a reply with no surrounding white space that spells
      "positive" at the start of a word at index `i` normalises to Positive. */
  lemma PositiveAt(raw: string, i: nat)
    requires raw != [] && !IsSpace(raw[0]) && !IsSpace(raw[|raw| - 1])
    requires i + |POSITIVE| <= |raw| && (i == 0 || !IsLetter(raw[i - 1]))
    requires forall k :: 0 <= k < |POSITIVE| ==> ToLower(raw[i + k]) == ToLower(POSITIVE[k])
    ensures NormalizeLabel(raw) == POSITIVE
  {
    StripUnpadded(raw);
    KeywordFound(raw, i, POSITIVE);
    LabelOccurs(raw, POSITIVE);
  }
}
