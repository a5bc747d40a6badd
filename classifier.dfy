/**
 * The answer log and the leave-type classifier (`diagnose_leave_type` in app.py).
 */
module Classifier {

  /** One recorded answer: the question key and the answer string, as the page's history tuples. */
  datatype Entry = Entry(question: string, answer: string)

  const Strategic := "전략적 떠남"
  const Impulsive := "충동적 떠남"
  const Mixed := "혼합형 떠남"

  /** The number of entries whose answer is exactly `a` (one generator sum of the classifier). */
  function CountAnswer(history: seq<Entry>, a: string): (n: nat)
    ensures n <= |history|
    ensures n == 0 <==> forall i :: 0 <= i < |history| ==> history[i].answer != a
    decreases |history|
  {
    if history == [] then 0
    else (if history[0].answer == a then 1 else 0) + CountAnswer(history[1..], a)
  }

  /**
   * The leave type of a history: at least four "yes" answers make it strategic,
   * whatever the "no" count; otherwise at least four "no" answers make it
   * impulsive; otherwise it is mixed.
   */
  function DiagnoseLeaveType(history: seq<Entry>): (r: string)
    ensures r == Strategic || r == Impulsive || r == Mixed
    ensures r == Strategic <==> CountAnswer(history, "yes") >= 4
    ensures r == Impulsive <==> CountAnswer(history, "yes") < 4 && CountAnswer(history, "no") >= 4
    ensures r == Mixed <==> CountAnswer(history, "yes") < 4 && CountAnswer(history, "no") < 4
  {
    var yesCount := CountAnswer(history, "yes");
    var noCount := CountAnswer(history, "no");
    if yesCount >= 4 then Strategic
    else if noCount >= 4 then Impulsive
    else Mixed
  }

  /** Counting distributes over concatenation. */
  lemma {:induction false} CountAnswerAppend(h1: seq<Entry>, h2: seq<Entry>, a: string)
    ensures CountAnswer(h1 + h2, a) == CountAnswer(h1, a) + CountAnswer(h2, a)
    decreases |h1|
  {
    if h1 == [] {
      assert h1 + h2 == h2;
    } else {
      assert (h1 + h2)[1..] == h1[1..] + h2;
      CountAnswerAppend(h1[1..], h2, a);
    }
  }

  /** Removing the entry at `j` removes its contribution to the count. */
  lemma CountAnswerRemove(h: seq<Entry>, j: nat, a: string)
    requires j < |h|
    ensures CountAnswer(h, a) == CountAnswer(h[..j] + h[j + 1..], a) + (if h[j].answer == a then 1 else 0)
  {
    assert h == h[..j] + [h[j]] + h[j + 1..];
    CountAnswerAppend(h[..j] + [h[j]], h[j + 1..], a);
    CountAnswerAppend(h[..j], [h[j]], a);
    CountAnswerAppend(h[..j], h[j + 1..], a);
    assert CountAnswer([h[j]], a) == (if h[j].answer == a then 1 else 0) by {
      assert [h[j]][1..] == [];
    }
  }

  /** Removing the entry at `j` removes one copy of it from the multiset. */
  lemma MultisetWithout(h: seq<Entry>, j: nat)
    requires j < |h|
    ensures multiset(h[..j] + h[j + 1..]) == multiset(h) - multiset{h[j]}
  {
    assert h == h[..j] + [h[j]] + h[j + 1..];
    assert multiset(h) == multiset(h[..j]) + multiset{h[j]} + multiset(h[j + 1..]);
  }

  /** The count depends only on the multiset of entries, not on their order. */
  lemma {:induction false} CountAnswerPermutation(h1: seq<Entry>, h2: seq<Entry>, a: string)
    requires multiset(h1) == multiset(h2)
    ensures CountAnswer(h1, a) == CountAnswer(h2, a)
    decreases |h1|
  {
    if h1 != [] {
      var e := h1[0];
      var j := IndexOf(h2, e);
      var rest2 := h2[..j] + h2[j + 1..];
      assert multiset(h1[1..]) == multiset(rest2) by {
        assert h1 == [e] + h1[1..];
        assert multiset(h1[1..]) == multiset(h1) - multiset{e};
        MultisetWithout(h2, j);
      }
      CountAnswerPermutation(h1[1..], rest2, a);
      CountAnswerRemove(h2, j, a);
    } else {
      assert |multiset(h2)| == 0;
    }
  }

  /** A position at which `e` occurs in `h`. */
  function IndexOf(h: seq<Entry>, e: Entry): (j: nat)
    requires e in multiset(h)
    ensures j < |h| && h[j] == e
  {
    if h[0] == e then 0
    else
      assert h == [h[0]] + h[1..];
      1 + IndexOf(h[1..], e)
  }

  /** The classification does not depend on the order of the history. */
  lemma DiagnoseIsOrderInsensitive(h1: seq<Entry>, h2: seq<Entry>)
    requires multiset(h1) == multiset(h2)
    ensures DiagnoseLeaveType(h1) == DiagnoseLeaveType(h2)
  {
    CountAnswerPermutation(h1, h2, "yes");
    CountAnswerPermutation(h1, h2, "no");
  }

  /** An entry whose answer is neither "yes" nor "no" is ignored, wherever it stands. */
  lemma DiagnoseIgnoresOtherAnswers(h1: seq<Entry>, e: Entry, h2: seq<Entry>)
    requires e.answer != "yes" && e.answer != "no"
    ensures DiagnoseLeaveType(h1 + [e] + h2) == DiagnoseLeaveType(h1 + h2)
  {
    forall a | a == "yes" || a == "no"
      ensures CountAnswer(h1 + [e] + h2, a) == CountAnswer(h1 + h2, a)
    {
      CountAnswerAppend(h1 + [e], h2, a);
      CountAnswerAppend(h1, [e], a);
      CountAnswerAppend(h1, h2, a);
      assert [e][1..] == [];
    }
  }

  /** Only the answers matter: the question keys are never looked at. */
  lemma {:induction false} DiagnoseIgnoresQuestions(h1: seq<Entry>, h2: seq<Entry>)
    requires |h1| == |h2|
    requires forall i :: 0 <= i < |h1| ==> h1[i].answer == h2[i].answer
    ensures DiagnoseLeaveType(h1) == DiagnoseLeaveType(h2)
  {
    SameAnswersSameCount(h1, h2, "yes");
    SameAnswersSameCount(h1, h2, "no");
  }

  lemma {:induction false} SameAnswersSameCount(h1: seq<Entry>, h2: seq<Entry>, a: string)
    requires |h1| == |h2|
    requires forall i :: 0 <= i < |h1| ==> h1[i].answer == h2[i].answer
    ensures CountAnswer(h1, a) == CountAnswer(h2, a)
    decreases |h1|
  {
    if h1 != [] {
      SameAnswersSameCount(h1[1..], h2[1..], a);
    }
  }

  /** When every answer is "yes" or "no", the two counts add up to the length of the history. */
  lemma {:induction false} YesNoCountsCoverHistory(history: seq<Entry>)
    requires forall i :: 0 <= i < |history| ==> history[i].answer == "yes" || history[i].answer == "no"
    ensures CountAnswer(history, "yes") + CountAnswer(history, "no") == |history|
    decreases |history|
  {
    if history != [] {
      YesNoCountsCoverHistory(history[1..]);
    }
  }

  /** A history of at least seven yes/no answers is never classified as mixed. */
  lemma LongHistoryIsNeverMixed(history: seq<Entry>)
    requires |history| >= 7
    requires forall i :: 0 <= i < |history| ==> history[i].answer == "yes" || history[i].answer == "no"
    ensures DiagnoseLeaveType(history) != Mixed
  {
    YesNoCountsCoverHistory(history);
  }

  /** Four "yes" answers make a strategic leave. */
  lemma DiagnoseFourYes()
    ensures DiagnoseLeaveType([Entry("Q1", "yes"), Entry("Q2", "yes"), Entry("Q8", "yes"), Entry("Q9", "yes")]) == Strategic
  {
    YesNoCountsCoverHistory([Entry("Q1", "yes"), Entry("Q2", "yes"), Entry("Q8", "yes"), Entry("Q9", "yes")]);
  }

  /** Four "no" answers make an impulsive leave. */
  lemma DiagnoseFourNo()
    ensures DiagnoseLeaveType([Entry("Q1", "no"), Entry("Q3", "no"), Entry("Q4", "no"), Entry("Q6", "no")]) == Impulsive
  {
    var h := [Entry("Q1", "no"), Entry("Q3", "no"), Entry("Q4", "no"), Entry("Q6", "no")];
    YesNoCountsCoverHistory(h);
    assert CountAnswer(h, "yes") == 0;
  }

  /** The empty history and a one-yes-one-no history are mixed. */
  lemma DiagnoseMixedExamples()
    ensures DiagnoseLeaveType([]) == Mixed
    ensures DiagnoseLeaveType([Entry("Q1", "yes"), Entry("Q3", "no")]) == Mixed
  {
    YesNoCountsCoverHistory([Entry("Q1", "yes"), Entry("Q3", "no")]);
  }
}
