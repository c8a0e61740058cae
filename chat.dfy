/**
 * The `/get` route: trims the posted `msg`, refuses a blank question,
 * otherwise hands the trimmed question to the retrieval chain and returns
 * the cleaned answer; any failure on the way gives a fixed apology.
 */
module ChatRoute {
  import opened Wrappers
  import opened Chars
  import opened PyStr
  import opened Cleaner

  const ValidationMessage: string := "Please enter a valid medical question"
  const ApologyMessage: string := "I'm having trouble answering that right now. Please try again later."

  /**
   * What invoking the chain on a question gives: a result whose `answer`
   * field holds the text, or a failure (the chain raised, or its result has
   * no `answer` field).
   */
  datatype ChainOutcome = Answered(answer: string) | Failed

  /**
   * The reply to a POST whose form field `msg` is `msg` (`None` when the
   * field is missing). `chain` stands for the retrieval chain, called with
   * the trimmed question.
   */
  function Chat(msg: Option<string>, chain: string -> ChainOutcome): (reply: string)
    ensures msg.None? ==> reply == ApologyMessage
    ensures msg.Some? && IsBlank(msg.value) ==> reply == ValidationMessage
    ensures msg.Some? && !IsBlank(msg.value) && chain(Strip(msg.value)).Failed? ==>
      reply == ApologyMessage
    ensures msg.Some? && !IsBlank(msg.value) && chain(Strip(msg.value)).Answered? ==>
      var answer := chain(Strip(msg.value)).answer;
      reply == Cleaned(answer) && |reply| <= |answer| && Trimmed(reply) && SingleSpaced(reply)
  {
    match msg
    case None => ApologyMessage
    case Some(m) =>
      var query := Strip(m);
      StripEmptyIffBlank(m);
      if query == [] then ValidationMessage
      else
        match chain(query)
        case Failed => ApologyMessage
        case Answered(answer) =>
          CleanedIsTidy(answer);
          Cleaned(answer)
  }

  /** A blank question is refused whatever the chain would have answered. */
  lemma BlankIgnoresChain(m: string, chain1: string -> ChainOutcome, chain2: string -> ChainOutcome)
    requires IsBlank(m)
    ensures Chat(Some(m), chain1) == Chat(Some(m), chain2) == ValidationMessage
  {
  }

  /**
   * The chain is called with the trimmed question: for a given chain, the
   * reply depends on the message only through its trimmed form.
   */
  lemma ReplyDependsOnTrimmedQuestion(m1: string, m2: string, chain: string -> ChainOutcome)
    requires Strip(m1) == Strip(m2)
    ensures Chat(Some(m1), chain) == Chat(Some(m2), chain)
  {
  }

  /** An answered question gets the cleaned answer, so a blank answer gives an empty reply. */
  lemma AnsweredReplyIsCleanedAnswer(m: string, chain: string -> ChainOutcome, answer: string)
    requires !IsBlank(m) && chain(Strip(m)) == Answered(answer)
    ensures Chat(Some(m), chain) == Cleaned(answer)
    ensures IsBlank(answer) ==> Chat(Some(m), chain) == ""
  {
    if IsBlank(answer) {
      CleanedBlank(answer);
    }
  }
}
