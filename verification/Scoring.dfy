/**
 * The decision `handleFormSubmit` takes on a submitted answer: the format
 * check against "What is ", then the comparison of canonical forms.
 */
module Scoring {
  import opened Wrappers
  import opened Text
  import opened Answer
  import opened Store

  const ExpectedFormat: string := "What is "

  /**
   * The outcome of a submission: a format complaint (the `alert`), a
   * submission with no clue open (reading `this.currentClue.answer` throws),
   * or the reveal of a correct or wrong answer.
   */
  datatype Verdict = FormatError | NoClueOpen | Revealed(isCorrect: bool)

  /** Lines 156-174 without the view effects. */
  function Judge(input: string, current: Option<Clue>): (v: Verdict) {
    if !StartsWith(Lower(input), Lower(ExpectedFormat)) then FormatError
    else if current.None? then NoClueOpen
    else Revealed(Cleanse(Trim(input[|ExpectedFormat|..])) == Cleanse(current.value.answer))
  }

  /** The points a submission earns: the clue's value on a correct answer, nothing otherwise. */
  function Award(input: string, current: Option<Clue>): (points: int) {
    if Judge(input, current) == Revealed(true) then current.value.value else 0
  }

  lemma ExpectedFormatLowered()
    ensures Lower(ExpectedFormat) == "what is "
  {
  }

  /**
   * With the prefix written in any letter case, the verdict depends only on
   * the canonical forms of what follows it and of the stored answer.
   */
  lemma VerdictByCanonicalForms(prefix: string, typed: string, clue: Clue)
    requires Lower(prefix) == "what is "
    ensures Judge(prefix + typed, Some(clue)) == Revealed(Cleanse(typed) == Cleanse(clue.answer))
  {
    var input := prefix + typed;
    ExpectedFormatLowered();
    LowerAppend(prefix, typed);
    assert Lower(input)[..|prefix|] == Lower(prefix);
    assert input[|ExpectedFormat|..] == typed;
    CleanseOfTrim(typed);
  }

  /** Typing the stored answer back, in any letter case and with any surrounding whitespace on either side, is judged correct. */
  lemma StoredAnswerAccepted(prefix: string, typed: string, clue: Clue)
    requires Lower(prefix) == "what is "
    requires Lower(Trim(typed)) == Lower(Trim(clue.answer))
    ensures Judge(prefix + typed, Some(clue)) == Revealed(true)
    ensures Award(prefix + typed, Some(clue)) == clue.value
  {
    VerdictByCanonicalForms(prefix, typed, clue);
    CleanseOfTrim(typed);
    CleanseOfTrim(clue.answer);
    CleanseIgnoresCase(Trim(typed));
    CleanseIgnoresCase(Trim(clue.answer));
  }

  /** Without the prefix, in any letter case, the submission is refused and earns nothing. */
  lemma MissingPrefixRejected(input: string, current: Option<Clue>)
    requires !StartsWith(Lower(input), "what is ")
    ensures Judge(input, current) == FormatError
    ensures Award(input, current) == 0
  {
    ExpectedFormatLowered();
  }

  /** A submission never lowers the score while every stored value is positive; it raises it exactly on a correct answer. */
  lemma AwardNonNegative(input: string, current: Option<Clue>)
    requires current.Some? ==> current.value.value > 0
    ensures Award(input, current) >= 0
    ensures Award(input, current) > 0 <==> Judge(input, current) == Revealed(true)
  {
  }

  /** A stored answer in italics is matched by the same text typed without the tags, in any letter case. */
  lemma ItalicAnswerAccepted(prefix: string, w: string, clue: Clue)
    requires Lower(prefix) == "what is "
    requires '<' !in w && clue.answer == "<i>" + w + "</i>"
    ensures Judge(prefix + w, Some(clue)) == Revealed(true)
    ensures Award(prefix + w, Some(clue)) == clue.value
  {
    VerdictByCanonicalForms(prefix, w, clue);
    ItalicPairDropped(w);
  }

  /** A stored answer with a leading `a ` is not matched by the bare word: the article rules never fire. */
  lemma ArticleAnswerRejected(w: string, question: string, value: int)
    requires Plain(w)
    ensures Judge("What is " + w, Some(Clue(question, "a " + w, value))) == Revealed(false)
  {
    assert Lower("What is ") == "what is ";
    VerdictByCanonicalForms("What is ", w, Clue(question, "a " + w, value));
    ArticleKept(w);
  }
}
