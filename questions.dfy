/**
 * The question handling of app.py (lines 81-95): after the index is built the
 * script asks one fixed test question, then reads a follow-up question; the
 * word "exit", in any letter case, ends the conversation instead of querying.
 * The query engine itself is not modelled; what is modelled is which
 * questions are sent to it.
 */
module Questions {

  const ExitSentinel: string := "exit"

  /** The smoke-test question asked right after indexing (line 81). */
  const IntroQuestion: string := "What is the repository about?"

  /** `str.lower()` on one character, restricted to ASCII letters. */
  function LowerChar(c: char): (l: char)
    ensures 'A' <= c <= 'Z' ==> l as int == c as int + 32
    ensures !('A' <= c <= 'Z') ==> l == c
  {
    if 'A' <= c <= 'Z' then (c as int + 32) as char else c
  }

  /** `str.lower()` with ASCII case folding. */
  function Lower(s: string): (r: string)
    ensures |r| == |s|
    ensures forall i :: 0 <= i < |s| ==> r[i] == LowerChar(s[i])
  {
    if s == [] then [] else [LowerChar(s[0])] + Lower(s[1..])
  }

  /** Reference definition: `q` spells "exit" with each letter in either case. */
  predicate IsExitWord(q: string) {
    |q| == 4 && forall i :: 0 <= i < 4 ==> q[i] == "exit"[i] || q[i] == "EXIT"[i]
  }

  /** The lower-case comparison of line 89 accepts exactly the sixteen spellings of "exit". */
  lemma LowerIsExitIff(q: string)
    ensures Lower(q) == ExitSentinel <==> IsExitWord(q)
  {
    if Lower(q) == ExitSentinel {
      forall i | 0 <= i < 4
        ensures q[i] == "exit"[i] || q[i] == "EXIT"[i]
      {
        assert LowerChar(q[i]) == "exit"[i];
      }
    }
    if IsExitWord(q) {
      assert Lower(q)[0] == 'e' && Lower(q)[1] == 'x' && Lower(q)[2] == 'i' && Lower(q)[3] == 't';
    }
  }

  /** What the script does with the follow-up question box (lines 87-95). */
  datatype QuestionOutcome =
    | NoQuestion              // empty input: nothing happens
    | ExitMessage             // "Exiting, thanks for chatting!"
    | Ask(question: string)   // the question is shown and sent to the query engine

  function HandleQuestion(q: string): (out: QuestionOutcome)
    ensures out == NoQuestion <==> q == []
    ensures out == ExitMessage <==> IsExitWord(q)
    ensures out.Ask? ==> out.question == q
  {
    LowerIsExitIff(q);
    if q == [] then NoQuestion
    else if Lower(q) == ExitSentinel then ExitMessage
    else Ask(q)
  }

  /**
   * The questions sent to the query engine, in order, once the index is built
   * and the follow-up box holds `q` (lines 84 and 94).
   */
  function QueriesIssued(q: string): (qs: seq<string>)
    ensures |qs| >= 1 && qs[0] == IntroQuestion
    ensures |qs| == 2 <==> q != [] && !IsExitWord(q)
    ensures |qs| <= 2
    ensures |qs| == 2 ==> qs[1] == q
  {
    match HandleQuestion(q)
    case Ask(question) => [IntroQuestion, question]
    case _ => [IntroQuestion]
  }

  /** A non-empty question is either exactly the exit word or forwarded verbatim, never both. */
  lemma QuestionExitOrAsk(q: string)
    requires q != []
    ensures HandleQuestion(q) == ExitMessage || HandleQuestion(q) == Ask(q)
    ensures HandleQuestion(q) == ExitMessage <==> Lower(q) == ExitSentinel
  {
    LowerIsExitIff(q);
  }
}
