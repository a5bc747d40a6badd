/**
 * The question router of the resignation questionnaire (`next_question` in app.py).
 *
 * States and answers are the strings the page passes around: the sentinels
 * "start" and "result" and the question keys "Q1".."Q9". The router is total
 * over all strings: an unknown state goes to "result", and every answer other
 * than "yes" takes the "no" branch.
 */
module Router {

  const Start := "start"
  const Result := "result"

  /** The keys of the question catalogue. */
  predicate IsQuestion(s: string)
  {
    s in {"Q1", "Q2", "Q3", "Q4", "Q5", "Q6", "Q7", "Q8", "Q9"}
  }

  /**
   * The length of the longest sequence of answers that leads from `s` to
   * "result": the rank that makes the routing graph acyclic.
   */
  function Height(s: string): (h: nat)
    ensures h == 0 <==> s == Result
    ensures h <= 8
  {
    if s == Result then 0
    else if s == Start then 8
    else if s == "Q1" then 7
    else if s == "Q3" then 6
    else if s == "Q4" then 5
    else if s == "Q5" then 4
    else if s == "Q2" then 3
    else if s == "Q6" || s == "Q8" then 2
    else 1
  }

  /** The transition table: the state shown after answering `answer` at `current`. */
  function NextQuestion(answer: string, current: string): (r: string)
    ensures IsQuestion(r) || r == Result
    ensures r != Start
    ensures current == Start ==> r == "Q1"
    ensures current == "Q7" || current == "Q9" ==> r == Result
    ensures current != Start && !IsQuestion(current) ==> r == Result
    ensures current != Result ==> Height(r) < Height(current)
  {
    if current == Start then "Q1"
    else if current == "Q1" then (if answer == "yes" then "Q2" else "Q3")
    else if current == "Q2" then (if answer == "yes" then "Q8" else Result)
    else if current == "Q8" then (if answer == "yes" then Result else "Q9")
    else if current == "Q9" then Result
    else if current == "Q3" then (if answer == "yes" then "Q4" else Result)
    else if current == "Q4" then (if answer == "yes" then "Q5" else "Q6")
    else if current == "Q5" then (if answer == "yes" then "Q2" else Result)
    else if current == "Q6" then (if answer == "yes" then Result else "Q7")
    else if current == "Q7" then Result
    else Result
  }

  /** Any answer other than exactly "yes" routes like "no". */
  lemma NonYesRoutesAsNo(answer: string, current: string)
    requires answer != "yes"
    ensures NextQuestion(answer, current) == NextQuestion("no", current)
  {
  }

  /** "result" is absorbing. */
  lemma ResultIsAbsorbing(answer: string)
    ensures NextQuestion(answer, Result) == Result
  {
  }

  /** Height is exactly one more than the higher of the two successors' heights. */
  lemma HeightIsLongestStep(s: string)
    requires s != Result
    ensures var y, n := Height(NextQuestion("yes", s)), Height(NextQuestion("no", s));
            Height(s) == 1 + (if y >= n then y else n)
  {
  }

  /** The state reached from `s` by answering `answers` in order. */
  function Run(answers: seq<string>, s: string): string
    decreases |answers|
  {
    if answers == [] then s else Run(answers[1..], NextQuestion(answers[0], s))
  }

  /** Answering one more question after a run is one more router step. */
  lemma {:induction false} RunSnoc(answers: seq<string>, a: string, s: string)
    ensures Run(answers + [a], s) == NextQuestion(a, Run(answers, s))
    decreases |answers|
  {
    if answers == [] {
      assert answers + [a] == [a];
    } else {
      assert (answers + [a])[1..] == answers[1..] + [a];
      RunSnoc(answers[1..], a, NextQuestion(answers[0], s));
    }
  }

  /** Once at "result", no answer leaves it. */
  lemma {:induction false} RunFromResult(answers: seq<string>)
    ensures Run(answers, Result) == Result
    decreases |answers|
  {
    if answers != [] {
      RunFromResult(answers[1..]);
    }
  }

  /** Every route from `s` has reached "result" after `Height(s)` answers. */
  lemma {:induction false} RunReachesResult(answers: seq<string>, s: string)
    requires |answers| >= Height(s)
    ensures Run(answers, s) == Result
    decreases |answers|
  {
    if s == Result {
      RunFromResult(answers);
    } else {
      RunReachesResult(answers[1..], NextQuestion(answers[0], s));
    }
  }

  /** Every route from Q1 ends at "result" within 7 answers, whatever the answers. */
  lemma RouteFromQ1IsBounded(answers: seq<string>)
    requires |answers| >= 7
    ensures Run(answers, "Q1") == Result
  {
    RunReachesResult(answers, "Q1");
  }

  /**
   * Along a route the rank strictly drops at every answer until "result":
   * the state after `j` answers is strictly lower than the state after `i < j`.
   */
  lemma {:induction false} HeightDropsAlongRoute(answers: seq<string>, s: string, i: nat, j: nat)
    requires i < j <= |answers|
    requires Run(answers[..i], s) != Result
    ensures Height(Run(answers[..j], s)) < Height(Run(answers[..i], s))
    decreases j
  {
    assert answers[..j] == answers[..j - 1] + [answers[j - 1]];
    RunSnoc(answers[..j - 1], answers[j - 1], s);
    if j - 1 > i {
      HeightDropsAlongRoute(answers, s, i, j - 1);
      ResultIsAbsorbing(answers[j - 1]);
    }
  }

  /** No route revisits a state it passed through before reaching "result". */
  lemma RouteNeverRevisits(answers: seq<string>, s: string, i: nat, j: nat)
    requires i < j <= |answers|
    requires Run(answers[..i], s) != Result
    ensures Run(answers[..j], s) != Run(answers[..i], s)
  {
    HeightDropsAlongRoute(answers, s, i, j);
  }

  /** Answering `a` first and then `rest` is running `rest` from `a`'s successor. */
  lemma RunCons(a: string, rest: seq<string>, s: string)
    ensures Run([a] + rest, s) == Run(rest, NextQuestion(a, s))
  {
    assert ([a] + rest)[1..] == rest;
  }

  /**
   * A longest route from `s`: its length is `Height(s)`, it ends at "result",
   * and no shorter prefix of it does.
   */
  function LongestAnswers(s: string): (r: seq<string>)
    ensures |r| == Height(s)
    ensures Run(r, s) == Result
    ensures forall k :: 0 <= k < |r| ==> Run(r[..k], s) != Result
    decreases Height(s)
  {
    if s == Result then []
    else
      var a := if Height(NextQuestion("yes", s)) >= Height(NextQuestion("no", s)) then "yes" else "no";
      var next := NextQuestion(a, s);
      HeightIsLongestStep(s);
      var rest := LongestAnswers(next);
      LongestAnswersPrefixes(a, rest, s);
      [a] + rest
  }

  lemma LongestAnswersPrefixes(a: string, rest: seq<string>, s: string)
    requires s != Result
    requires Run(rest, NextQuestion(a, s)) == Result
    requires forall k :: 0 <= k < |rest| ==> Run(rest[..k], NextQuestion(a, s)) != Result
    ensures Run([a] + rest, s) == Result
    ensures forall k :: 0 <= k < |rest| + 1 ==> Run(([a] + rest)[..k], s) != Result
  {
    RunCons(a, rest, s);
    forall k | 0 <= k < |rest| + 1
      ensures Run(([a] + rest)[..k], s) != Result
    {
      if k > 0 {
        assert ([a] + rest)[..k] == [a] + rest[..k - 1];
        RunCons(a, rest[..k - 1], s);
      }
    }
  }

  /** The 7-answer bound is attained, by Q1, Q3, Q4, Q5, Q2, Q8, Q9. */
  lemma LongestRouteFromQ1()
    ensures Height("Q1") == 7
    ensures Run(["no", "yes", "yes", "yes", "yes", "no"], "Q1") == "Q9"
    ensures Run(["no", "yes", "yes", "yes", "yes", "no", "yes"], "Q1") == Result
  {
    var route := ["no", "yes", "yes", "yes", "yes", "no"];
    assert NextQuestion("no", "Q1") == "Q3";
    assert NextQuestion("yes", "Q3") == "Q4";
    assert NextQuestion("yes", "Q4") == "Q5";
    assert NextQuestion("yes", "Q5") == "Q2";
    assert NextQuestion("yes", "Q2") == "Q8";
    assert NextQuestion("no", "Q8") == "Q9";
    RunCons("no", route[1..], "Q1");
    RunCons("yes", route[2..], "Q3");
    RunCons("yes", route[3..], "Q4");
    RunCons("yes", route[4..], "Q5");
    RunCons("yes", route[5..], "Q2");
    RunCons("no", [], "Q8");
    RunReachesResult(["no", "yes", "yes", "yes", "yes", "no", "yes"], "Q1");
  }
}
