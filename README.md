# Resignation questionnaire: router, classifier, score extractor and session

This project models the logic of `app.py`, a one-page questionnaire about whether to resign.
The page routes the user through a fixed tree of yes/no questions (`Q1`..`Q9`, between the
sentinel states `start` and `result`). It classifies the recorded answers into one of three
leave types. It reads a "N/10" score out of the advice text returned by a remote completion
service. The session state is updated by the start, yes/no, back and restart buttons.

- `wrappers.dfy`, module `Wrappers`: Python's `None`-or-value, as `Option`.
- `router.dfy`, module `Router`: `next_question` as `NextQuestion`. It works over all strings, as the
  Python does. It also defines a rank `Height`, which is the length of the longest answer sequence
  that reaches `result`. It defines `Run`, the state reached by a sequence of answers. Together
  these give acyclicity, the 7-answer bound and the fact that the bound is attained.
- `classifier.dfy`, module `Classifier`: the history entry `(question, answer)` and
  `diagnose_leave_type` as `DiagnoseLeaveType`. The module proves it is independent of order,
  ignores other answers and ignores question keys.
- `score.dfy`, module `ScoreExtractor`: `re.search(r'(\d{1,2})\/10', text)` as a backtracking
  engine would run it. The engine is `MatchAt` (one attempt, two digits first) and `Search`
  (leftmost position first). The module states the leftmost, longest-at-that-position
  match declaratively, and `ExtractScore` is proved against that statement.
- `session.dfy`, module `SessionState`: `st.session_state` as class `Session`, with one method per
  button press. Its invariant `Valid()` says that the history is a route through the router
  ending at the current question (`RouteInvariant`). Lemmas show that such a history is what `Run`
  produces from Q1, holds at most 7 entries and never repeats a question.

The longest route from Q1 is 7 answers: Q1, Q3, Q4, Q5, Q2, Q8, Q9, then `result`; from `start`
it is 8 transitions. `Router.LongestRouteFromQ1` proves that this route exists, and
`Router.RouteFromQ1IsBounded` proves that no route is longer. The router accepts any answer
string and routes every answer other than "yes" as "no"; the classifier counts only answers that
are exactly "yes" or "no" and ignores the rest. The model keeps both behaviours.

## Model

| member | source | states |
|---|---|---|
| Router.NextQuestion | app.py:52-73 | the result is always Q1..Q9 or "result", never "start"; "start" goes to Q1 for any answer; Q7 and Q9 go to "result" for any answer; an unknown state goes to "result"; outside "result" every step strictly lowers the rank |
| Router.NonYesRoutesAsNo | app.py:53-72 | any answer other than exactly "yes" routes the same way as "no" |
| Router.ResultIsAbsorbing | app.py:73 | "result" maps to "result" for every answer (catch-all) |
| Router.Height | app.py:52-73 | the rank is 0 exactly at "result" and at most 8 |
| Router.HeightIsLongestStep | app.py:52-73 | outside "result", the rank is one more than the larger rank of the yes- and no-successors, so it is the longest remaining route |
| Router.RunSnoc | app.py:52-73 | one more answer after a run is one more router step |
| Router.RunFromResult | app.py:73 | no sequence of answers leaves "result" |
| Router.RunReachesResult | app.py:52-73 | from any state, any Height(state) answers lead to "result" |
| Router.RouteFromQ1IsBounded | app.py:55-72 | from Q1, any 7 answers lead to "result" |
| Router.HeightDropsAlongRoute | app.py:55-72 | along any route, the state after j answers ranks strictly lower than the state after i < j answers, unless the latter is "result" |
| Router.RouteNeverRevisits | app.py:55-72 | no route revisits a state before reaching "result" (the routing graph is acyclic) |
| Router.LongestAnswers | app.py:52-73 | for every state there is an answer sequence of length Height(state) that reaches "result" only at its end, so the bound is tight |
| Router.LongestRouteFromQ1 | app.py:55-72 | Q1's bound is 7, and it is attained by no, yes, yes, yes, yes, no (Q1, Q3, Q4, Q5, Q2, Q8 reach Q9), then one more answer |
| Classifier.CountAnswer | app.py:89-90 | the count is at most the history's length and is 0 exactly when no entry has that answer |
| Classifier.DiagnoseLeaveType | app.py:88-97 | the label is one of the three; it is strategic iff there are at least 4 "yes" answers; it is impulsive iff there are fewer than 4 "yes" and at least 4 "no"; it is mixed iff there are fewer than 4 of each |
| Classifier.CountAnswerAppend | app.py:89-90 | counting distributes over concatenation of histories |
| Classifier.CountAnswerRemove | app.py:89-90 | removing one entry removes exactly its own contribution to the count |
| Classifier.CountAnswerPermutation | app.py:89-90 | histories with the same multiset of entries have the same counts |
| Classifier.DiagnoseIsOrderInsensitive | app.py:88-97 | the classification is invariant under permutation of the history |
| Classifier.DiagnoseIgnoresOtherAnswers | app.py:89-90 | inserting an entry whose answer is neither "yes" nor "no" anywhere in the history does not change the classification |
| Classifier.SameAnswersSameCount | app.py:89-90 | histories with the same answers position by position have the same counts |
| Classifier.DiagnoseIgnoresQuestions | app.py:88-97 | the classification depends only on the answers, not on the question keys |
| Classifier.YesNoCountsCoverHistory | app.py:89-90 | when every answer is "yes" or "no", the two counts add up to the history's length |
| Classifier.LongHistoryIsNeverMixed | app.py:92-97 | a history of 7 or more yes/no answers is never mixed |
| Classifier.DiagnoseFourYes | app.py:92-93 | the history (Q1,yes),(Q2,yes),(Q8,yes),(Q9,yes) gives the strategic label |
| Classifier.DiagnoseFourNo | app.py:94-95 | the history (Q1,no),(Q3,no),(Q4,no),(Q6,no), with no "yes" answer, gives the impulsive label |
| Classifier.DiagnoseMixedExamples | app.py:96-97 | the empty history, and one "yes" with one "no", give the mixed label |
| ScoreExtractor.GroupValue | app.py:133 | the captured one or two digits read as an integer in 0..99, and in 0..9 for one digit |
| ScoreExtractor.MatchAt | app.py:131 | the engine's attempt at a position succeeds exactly when one or two digits and "/10" start there, and it takes one digit only when two do not match |
| ScoreExtractor.Search | app.py:131 | the scan finds nothing iff no match starts at or after the starting position; otherwise it returns the leftmost match, with the two-digit preference at that position |
| ScoreExtractor.ExtractScore | app.py:130-134 | None exactly when no one- or two-digit number is followed by "/10"; otherwise the value of the leftmost match, within 0..99 |
| ScoreExtractor.LeftmostMatchIsUnique | app.py:131 | the leftmost match, position and width, is unique |
| ScoreExtractor.ExtractScoreIsLeftmostMatch | app.py:130-134 | whenever a leftmost match exists, the score is its value |
| ScoreExtractor.ExtractScoreSimple | app.py:130-134 | "blah blah 7/10 more text" scores 7 |
| ScoreExtractor.ExtractScoreFirstOnly | app.py:130-134 | "3/10 and later 9/10" scores 3: only the first match counts |
| ScoreExtractor.ExtractScoreThreeDigits | app.py:131 | "123/10" scores 23: the match starts one digit later and takes two digits |
| ScoreExtractor.ExtractScoreAboveTen | app.py:130-134 | "42/10" scores 42: the score is not capped at 10 |
| ScoreExtractor.ExtractScoreNone | app.py:131-134 | every text that contains no digit has no score |
| ScoreExtractor.ExtractScoreNoNumbers | app.py:131-134 | "no numbers here" has no score |
| SessionState.AnswerKeepsRoute | app.py:216-225 | answering at a non-result state of a route appends a yes/no entry and keeps the history a route ending at the router's answer; that state is a catalogue question |
| SessionState.BackKeepsRoute | app.py:200-205 | popping the last entry of a route leaves a route ending at that entry's question |
| SessionState.RouteFollowsRouter | app.py:194-225 | in a route history, each entry's question is the state the router reaches from Q1 on the earlier answers, and the current question is the state reached on all of them |
| SessionState.RouteIsBounded | app.py:216-225 | a route history holds at most 7 entries |
| SessionState.RouteHasNoRepeats | app.py:216-225 | no question appears twice in a route history |
| SessionState.CurrentIsKnownState | app.py:194-225 | before the start button or along a route, the current state is "start", "result" or one of Q1..Q9 |
| SessionState.BackOfferedAfterAnswer | app.py:200-201 | right after an answer, the back button is offered exactly when the answer did not lead to "result" |
| SessionState.Session.constructor | app.py:40-49 | a new session is on the start screen, with an empty history, no score, and empty analysis and type |
| SessionState.Session.PressStart | app.py:193-196 | the start button moves to Q1 and clears the history; the other fields are unchanged and the invariant holds |
| SessionState.Session.PressAnswer | app.py:216-225 | a yes/no press appends (current question, answer) and moves to the router's answer; the history stays a route of at most 7 entries |
| SessionState.Session.PressBack | app.py:200-205 | back, offered only on a question screen with a non-empty history, pops the last entry and shows its question again; the invariant holds |
| SessionState.Session.ShowResult | app.py:235-249 | at "result", the type becomes the classification of the history, the analysis becomes the generated text, and the score becomes the extracted one when there is one (the previous one otherwise) |
| SessionState.Session.PressRestart | app.py:252-257 | restart moves to Q1, clears the history, the score and the type, and keeps the last analysis text |
| SessionState.AnswerThenBack | app.py:200-225 | answering and then pressing back restores the history, the current question and every other field exactly, whenever the answer did not lead to "result" |

## Left out

- `generate_result` (app.py:100-127) builds a prompt and calls a remote chat-completion service. The model does not include it; its text is the `generated` parameter of `Session.ShowResult`.
- `plot_risk_score` (app.py:139-178) divides the score by 10 as a float and hands a chart description to a rendering library. It is presentation only.
- Page configuration, styling, API-key handling, screen texts and the history listing (app.py:11-37, 182-192, 207-214, 227-233, 237-243) are presentation and I/O. The question texts (app.py:75-85) appear only as the set of keys `Q1`..`Q9` (`Router.IsQuestion`).
- `st.rerun()` and `st.stop()` are the framework's redraw control. Each button press is one atomic method call, and a method's precondition is the condition under which the page draws that button.
- `Session.ShowResult` runs once per call. The page recomputes it on every redraw of the result screen, which the model does not show as repeated calls.
- ExtractScore: Python's `\d` and `int()` also accept non-ASCII decimal digits; the model accepts only ASCII '0'..'9'.
