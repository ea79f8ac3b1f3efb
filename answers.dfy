/**
 * The recovery-answer workflow of the `question` view: validate the
 * submitted text, then create or update the user's single answer row.
 * The answer table is keyed by user, which is the one-to-one link of the
 * Answer model.
 */
module Answers {
  import opened Wrappers
  import opened Models
  import opened Validation

  /** The two input checks, in the order the view applies them. */
  function AnswerCheck(text: string): (r: Outcome)
    ensures r == Ok || r == ValidationError(AnswerInvalidCharacters) || r == ValidationError(AnswerTooShort)
    ensures r == Ok <==> AllAllowed(text) && MinAnswerLength <= |text|
    ensures r == ValidationError(AnswerInvalidCharacters) <==> !AllAllowed(text)
  {
    MatchesAllowListIff(text);
    if !MatchesAllowList(text) then ValidationError(AnswerInvalidCharacters)
    else if |text| < MinAnswerLength then ValidationError(AnswerTooShort)
    else Ok
  }

  datatype SaveResult = SaveResult(outcome: Outcome, answers: map<UserId, Answer>)

  /**
   * Saving `text` for `question` as `user`'s answer: rejected input changes
   * nothing; accepted input leaves `user` with exactly the submitted pair
   * (updating the row if there was one) and nobody else's row changes.
   */
  function SaveAnswerStep(answers: map<UserId, Answer>, user: UserId, question: QuestionId,
                          text: string, now: Time): (r: SaveResult)
    ensures r.outcome == AnswerCheck(text)
    ensures r.outcome != Ok ==> r.answers == answers
    ensures r.outcome == Ok ==>
              && r.answers.Keys == answers.Keys + {user}
              && r.answers[user].recoveryQuestion == Some(question)
              && r.answers[user].answer == Some(text)
              && r.answers[user].savedDate == now
    ensures forall u :: u in answers && u != user ==> u in r.answers && r.answers[u] == answers[u]
    ensures |r.answers| == if r.outcome == Ok && user !in answers then |answers| + 1 else |answers|
  {
    var check := AnswerCheck(text);
    if check != Ok then SaveResult(check, answers)
    else SaveResult(Ok, answers[user := Answer(Some(question), Some(text), now)])
  }

  /**
   * Two accepted saves by the same user leave one row for that user, which
   * holds the second submission; the table grows by at most one row.
   */
  lemma {:induction false} SecondSaveUpdates(answers: map<UserId, Answer>, user: UserId,
                                             q1: QuestionId, t1: string, q2: QuestionId, t2: string,
                                             now1: Time, now2: Time)
    requires AnswerCheck(t1) == Ok && AnswerCheck(t2) == Ok
    ensures var after := SaveAnswerStep(SaveAnswerStep(answers, user, q1, t1, now1).answers, user, q2, t2, now2).answers;
            && after[user] == Answer(Some(q2), Some(t2), now2)
            && after.Keys == answers.Keys + {user}
            && |after| <= |answers| + 1
  {
    var mid := SaveAnswerStep(answers, user, q1, t1, now1).answers;
    assert user in mid;
  }

  /**
   * `Answer.objects.create`: the unique constraint on the user makes a
   * second row for the same user fail with nothing stored.
   */
  function CreateAnswerStep(answers: map<UserId, Answer>, user: UserId, question: Option<QuestionId>,
                            text: Option<string>, now: Time): (r: SaveResult)
    ensures r.outcome == Ok || r.outcome == IntegrityError
    ensures r.outcome == IntegrityError <==> user in answers
    ensures r.outcome == IntegrityError ==> r.answers == answers
    ensures r.outcome == Ok ==> r.answers.Keys == answers.Keys + {user} && |r.answers| == |answers| + 1
    ensures r.outcome == Ok ==> r.answers[user] == Answer(question, text, now)
    ensures forall u :: u in answers && u != user ==> u in r.answers && r.answers[u] == answers[u]
  {
    if user in answers then SaveResult(IntegrityError, answers)
    else SaveResult(Ok, answers[user := Answer(question, text, now)])
  }

  /** Creating twice for one user: the second attempt fails. */
  lemma {:induction false} SecondCreateFails(answers: map<UserId, Answer>, user: UserId,
                                             q1: Option<QuestionId>, t1: Option<string>,
                                             q2: Option<QuestionId>, t2: Option<string>, now: Time)
    requires user !in answers
    ensures CreateAnswerStep(answers, user, q1, t1, now).outcome == Ok
    ensures CreateAnswerStep(CreateAnswerStep(answers, user, q1, t1, now).answers, user, q2, t2, now).outcome
            == IntegrityError
  {
  }

  /** `prev_answer`: the signed-in user's answer row, if there is one. */
  function PriorAnswer(answers: map<UserId, Answer>, user: Option<UserId>): (r: Option<Answer>)
    ensures r.Some? <==> user.Some? && user.value in answers
    ensures r.Some? ==> r.value == answers[user.value]
  {
    match user
    case Some(u) => if u in answers then Some(answers[u]) else None
    case None => None
  }
}
