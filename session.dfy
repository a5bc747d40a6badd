/**
 * The page's session state and the effect of each button press (app.py's
 * `st.session_state` and its updates). Each press is one atomic method call;
 * a button's method requires the condition under which the page shows it.
 */
module SessionState {

  import opened Wrappers
  import opened Router
  import opened Classifier
  import opened ScoreExtractor

  /** The answers of a history, in order. */
  function Answers(history: seq<Entry>): (r: seq<string>)
    ensures |r| == |history|
    ensures forall i :: 0 <= i < |history| ==> r[i] == history[i].answer
  {
    seq(|history|, i requires 0 <= i < |history| => history[i].answer)
  }

  /**
   * The history is a route through the router that ends at `current`: it
   * starts at Q1, each entry's successor is the router's answer to that entry,
   * and `current` is the router's answer to the last entry (Q1 when empty).
   * Every recorded question is a catalogue key and every answer a button's.
   */
  ghost predicate RouteInvariant(history: seq<Entry>, current: string)
  {
    && (forall i :: 0 <= i < |history| ==> IsQuestion(history[i].question))
    && (forall i :: 0 <= i < |history| ==> history[i].answer == "yes" || history[i].answer == "no")
    && (history == [] ==> current == "Q1")
    && (history != [] ==> history[0].question == "Q1")
    && (history != [] ==> current == NextQuestion(history[|history| - 1].answer, history[|history| - 1].question))
    && (forall i :: 0 <= i < |history| - 1 ==> history[i + 1].question == NextQuestion(history[i].answer, history[i].question))
  }

  /** Answering a question keeps the history a route, now ending at the router's answer. */
  lemma AnswerKeepsRoute(history: seq<Entry>, current: string, a: string)
    requires RouteInvariant(history, current)
    requires current != Result
    requires a == "yes" || a == "no"
    ensures IsQuestion(current)
    ensures RouteInvariant(history + [Entry(current, a)], NextQuestion(a, current))
  {
  }

  /** Dropping the last entry keeps the history a route, now ending at that entry's question. */
  lemma BackKeepsRoute(history: seq<Entry>, current: string)
    requires RouteInvariant(history, current)
    requires history != []
    ensures RouteInvariant(history[..|history| - 1], history[|history| - 1].question)
  {
  }

  /**
   * A route history is exactly what the router produces from Q1: each entry's
   * question is the state reached by the answers before it, and `current` is
   * the state reached by all of them.
   */
  lemma {:induction false} RouteFollowsRouter(history: seq<Entry>, current: string)
    requires RouteInvariant(history, current)
    ensures forall i :: 0 <= i < |history| ==> history[i].question == Run(Answers(history)[..i], "Q1")
    ensures current == Run(Answers(history), "Q1")
    decreases |history|
  {
    if history != [] {
      var n := |history|;
      var last := history[n - 1];
      var front := history[..n - 1];
      BackKeepsRoute(history, current);
      RouteFollowsRouter(front, last.question);
      assert Answers(history) == Answers(front) + [last.answer];
      forall i | 0 <= i < n
        ensures history[i].question == Run(Answers(history)[..i], "Q1")
      {
        assert Answers(history)[..i] == Answers(front)[..i];
        if i == n - 1 {
          assert Answers(front)[..i] == Answers(front);
        }
      }
      RunSnoc(Answers(front), last.answer, "Q1");
    }
  }

  /** A route history holds at most seven answers. */
  lemma RouteIsBounded(history: seq<Entry>, current: string)
    requires RouteInvariant(history, current)
    ensures |history| <= 7
  {
    if |history| > 7 {
      RouteFollowsRouter(history, current);
      RouteFromQ1IsBounded(Answers(history)[..7]);
      assert false;
    }
  }

  /** No question appears twice in a route history. */
  lemma RouteHasNoRepeats(history: seq<Entry>, current: string)
    requires RouteInvariant(history, current)
    ensures forall i, j :: 0 <= i < j < |history| ==> history[i].question != history[j].question
  {
    RouteFollowsRouter(history, current);
    forall i, j | 0 <= i < j < |history|
      ensures history[i].question != history[j].question
    {
      RouteNeverRevisits(Answers(history), "Q1", i, j);
    }
  }

  /** Before the start button or along a route, the current state is "start", "result" or a catalogue key. */
  lemma CurrentIsKnownState(history: seq<Entry>, current: string)
    requires (current == Start && history == []) || RouteInvariant(history, current)
    ensures current == Start || current == Result || IsQuestion(current)
  {
  }

  /** The back button is offered right after an answer exactly when the answer did not lead to "result". */
  lemma BackOfferedAfterAnswer(history: seq<Entry>, current: string, a: string)
    requires RouteInvariant(history, current)
    requires current != Result
    requires a == "yes" || a == "no"
    ensures BackOffered(history + [Entry(current, a)], NextQuestion(a, current)) <==> NextQuestion(a, current) != Result
  {
  }

  /** The condition under which the page shows the back button. */
  predicate BackOffered(history: seq<Entry>, current: string)
  {
    current != Start && current != Result && history != []
  }

  class Session {
    var history: seq<Entry>
    var currentQuestion: string
    var riskScore: Option<int>
    var fullAnalysis: string
    var leaveType: string

    /** Before the start button the history is empty; afterwards it is a route ending at the current question. */
    ghost predicate Valid()
      reads this
    {
      && ((currentQuestion == Start && history == []) || RouteInvariant(history, currentQuestion))
      && (riskScore.Some? ==> 0 <= riskScore.value <= 99)
      && (leaveType == "" || leaveType == Strategic || leaveType == Impulsive || leaveType == Mixed)
    }

    /** The first visit: nothing answered, the start screen, no score, no analysis, no type. */
    constructor ()
      ensures Valid()
      ensures history == [] && currentQuestion == Start
      ensures riskScore == None && fullAnalysis == "" && leaveType == ""
    {
      history := [];
      currentQuestion := Start;
      riskScore := None;
      fullAnalysis := "";
      leaveType := "";
    }

    /** The start button, shown on the start screen only: go to Q1 with an empty history. */
    method PressStart()
      requires Valid() && currentQuestion == Start
      modifies this
      ensures Valid()
      ensures currentQuestion == "Q1" && history == []
      ensures riskScore == old(riskScore) && fullAnalysis == old(fullAnalysis) && leaveType == old(leaveType)
    {
      currentQuestion := "Q1";
      history := [];
    }

    /**
     * The yes and no buttons, shown on a question screen: record the answer
     * to the current question and move to the router's next state.
     */
    method PressAnswer(a: string)
      requires Valid() && currentQuestion != Start && currentQuestion != Result
      requires a == "yes" || a == "no"
      modifies this
      ensures Valid()
      ensures history == old(history) + [Entry(old(currentQuestion), a)]
      ensures currentQuestion == NextQuestion(a, old(currentQuestion))
      ensures |history| <= 7
      ensures riskScore == old(riskScore) && fullAnalysis == old(fullAnalysis) && leaveType == old(leaveType)
    {
      AnswerKeepsRoute(history, currentQuestion, a);
      history := history + [Entry(currentQuestion, a)];
      currentQuestion := NextQuestion(a, currentQuestion);
      RouteIsBounded(history, currentQuestion);
    }

    /**
     * The back button, shown on a question screen with a non-empty history:
     * pop the last entry and show its question again.
     */
    method PressBack()
      requires Valid() && BackOffered(history, currentQuestion)
      modifies this
      ensures Valid()
      ensures history == old(history)[..|old(history)| - 1]
      ensures currentQuestion == old(history)[|old(history)| - 1].question
      ensures IsQuestion(currentQuestion)
      ensures riskScore == old(riskScore) && fullAnalysis == old(fullAnalysis) && leaveType == old(leaveType)
    {
      BackKeepsRoute(history, currentQuestion);
      var last := history[|history| - 1];
      history := history[..|history| - 1];
      currentQuestion := last.question;
    }

    /**
     * The result screen: classify the history, keep the generated analysis
     * (the remote completion's text, a parameter here) and take its score
     * when it has one; without one the previous score stays.
     */
    method ShowResult(generated: string)
      requires Valid() && currentQuestion == Result
      modifies this
      ensures Valid()
      ensures leaveType == DiagnoseLeaveType(history)
      ensures fullAnalysis == generated
      ensures riskScore == if ExtractScore(generated).Some? then ExtractScore(generated) else old(riskScore)
      ensures history == old(history) && currentQuestion == old(currentQuestion)
    {
      leaveType := DiagnoseLeaveType(history);
      fullAnalysis := generated;
      var score := ExtractScore(generated);
      if score.Some? {
        riskScore := score;
      }
    }

    /**
     * The restart button, shown on the result screen: back to Q1 with an empty
     * history, no score and no type; the last analysis text is kept.
     */
    method PressRestart()
      requires Valid() && currentQuestion == Result
      modifies this
      ensures Valid()
      ensures currentQuestion == "Q1" && history == []
      ensures riskScore == None && leaveType == ""
      ensures fullAnalysis == old(fullAnalysis)
    {
      currentQuestion := "Q1";
      history := [];
      riskScore := None;
      leaveType := "";
    }
  }

  /** Answering and then pressing back, when back is offered, restores the session exactly. */
  method AnswerThenBack(s: Session, a: string)
    requires s.Valid() && s.currentQuestion != Start && s.currentQuestion != Result
    requires a == "yes" || a == "no"
    requires NextQuestion(a, s.currentQuestion) != Result
    modifies s
    ensures s.Valid()
    ensures s.history == old(s.history) && s.currentQuestion == old(s.currentQuestion)
    ensures s.riskScore == old(s.riskScore) && s.fullAnalysis == old(s.fullAnalysis) && s.leaveType == old(s.leaveType)
  {
    s.PressAnswer(a);
    s.PressBack();
    assert s.history == old(s.history);
  }
}
