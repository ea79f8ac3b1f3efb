/**
 * The two-stage password recovery: the challenge of the `forgot` view and
 * the reset of the `changepswd` view. The reset stage takes only a
 * username; nothing ties it to a passed challenge.
 */
module Recovery {
  import opened Wrappers
  import opened Models
  import opened Validation

  /** `len(pswd1) < 8` rejects a new password. */
  const MinPasswordLength: nat := 8

  /** Some user has this username. */
  ghost predicate HasUser(users: map<UserId, User>, name: string) {
    exists u :: u in users && users[u].username == name
  }

  /** `User.objects.get(username=name)`: the one user with that name. */
  function FindUser(users: map<UserId, User>, name: string): (r: Option<UserId>)
    requires UniqueUsernames(users)
    ensures r.Some? <==> HasUser(users, name)
    ensures r.Some? ==> r.value in users && users[r.value].username == name
  {
    if exists u :: u in users && users[u].username == name then
      Some(var u :| u in users && users[u].username == name; u)
    else None
  }

  /** A stored answer row matches the triple exactly. */
  ghost predicate StoredAnswerMatches(users: map<UserId, User>, answers: map<UserId, Answer>,
                                      name: string, question: QuestionId, answer: string) {
    exists u :: u in users && users[u].username == name && u in answers
                && answers[u].recoveryQuestion == Some(question) && answers[u].answer == Some(answer)
  }

  /**
   * The challenge: the answer, then the username, must pass the allow-list;
   * the user and the question must exist; then a stored row must equal the
   * (user, question, answer) triple. On success the reset form is shown for
   * that username. No path writes anything.
   */
  function Challenge(users: map<UserId, User>, questions: map<QuestionId, string>, answers: map<UserId, Answer>,
                     name: string, question: QuestionId, answer: string): (r: Outcome)
    requires UniqueUsernames(users)
    ensures r.ChallengePassed? <==>
              && AllAllowed(answer) && AllAllowed(name)
              && question in questions
              && StoredAnswerMatches(users, answers, name, question, answer)
    ensures r.ChallengePassed? ==> r.username == name
    ensures r == ValidationError(AnswerInvalidCharacters) <==> !AllAllowed(answer)
    ensures r == ValidationError(UsernameInvalidCharacters) <==> AllAllowed(answer) && !AllAllowed(name)
    ensures r == NotFound <==> AllAllowed(answer) && AllAllowed(name) && (!HasUser(users, name) || question !in questions)
    ensures r == Rejected <==>
              && AllAllowed(answer) && AllAllowed(name)
              && HasUser(users, name) && question in questions
              && !StoredAnswerMatches(users, answers, name, question, answer)
    ensures r.ChallengePassed? || r == Rejected || r == NotFound || r.ValidationError?
  {
    MatchesAllowListIff(answer);
    MatchesAllowListIff(name);
    if !MatchesAllowList(answer) then ValidationError(AnswerInvalidCharacters)
    else if !MatchesAllowList(name) then ValidationError(UsernameInvalidCharacters)
    else match FindUser(users, name)
      case None => NotFound
      case Some(user) =>
        if question !in questions then NotFound
        else if user in answers && answers[user].recoveryQuestion == Some(question)
                && answers[user].answer == Some(answer)
        then ChallengePassed(name)
        else Rejected
  }

  datatype ResetResult = ResetResult(outcome: Outcome, users: map<UserId, User>)

  /**
   * The reset: the user must exist, the two passwords must be equal and the
   * password at least eight characters long; then the user's credential
   * becomes the new password's. No other user and no username changes.
   */
  function ResetStep(users: map<UserId, User>, name: string, password1: string, password2: string): (r: ResetResult)
    requires UniqueUsernames(users)
    ensures r.outcome == Ok <==> HasUser(users, name) && password1 == password2 && MinPasswordLength <= |password1|
    ensures r.outcome == NotFound <==> !HasUser(users, name)
    ensures r.outcome == ValidationError(PasswordsDoNotMatch) <==> HasUser(users, name) && password1 != password2
    ensures r.outcome == ValidationError(PasswordTooShort) <==>
              HasUser(users, name) && password1 == password2 && |password1| < MinPasswordLength
    ensures r.outcome != Ok ==> r.users == users
    ensures r.users.Keys == users.Keys
    ensures forall u :: u in users ==> r.users[u].username == users[u].username
    ensures forall u :: u in users ==>
              r.users[u].credential ==
              if r.outcome == Ok && users[u].username == name then PasswordHash(password1) else users[u].credential
  {
    match FindUser(users, name)
    case None => ResetResult(NotFound, users)
    case Some(user) =>
      if password1 != password2 then ResetResult(ValidationError(PasswordsDoNotMatch), users)
      else if |password1| < MinPasswordLength then ResetResult(ValidationError(PasswordTooShort), users)
      else ResetResult(Ok, users[user := users[user].(credential := PasswordHash(password1))])
  }

  /** A reset keeps usernames unique. */
  lemma ResetKeepsUniqueUsernames(users: map<UserId, User>, name: string, password1: string, password2: string)
    requires UniqueUsernames(users)
    ensures UniqueUsernames(ResetStep(users, name, password1, password2).users)
  {
  }

  /** After a successful reset the new password logs the user in. */
  lemma {:induction false} LoginAfterReset(users: map<UserId, User>, name: string, password: string, u: UserId)
    requires UniqueUsernames(users)
    requires u in users && users[u].username == name && MinPasswordLength <= |password|
    ensures ResetStep(users, name, password, password).outcome == Ok
    ensures ChecksPassword(ResetStep(users, name, password, password).users[u], password)
  {
    assert HasUser(users, name);
  }

  /**
   * The reset does not depend on the challenge: for a user with no stored
   * answer every challenge fails, and the reset still goes through.
   */
  lemma {:induction false} ResetWithoutChallenge(users: map<UserId, User>, questions: map<QuestionId, string>,
                                                 answers: map<UserId, Answer>, u: UserId, password: string)
    requires UniqueUsernames(users)
    requires u in users && u !in answers && MinPasswordLength <= |password|
    ensures forall q: QuestionId, a: string :: !Challenge(users, questions, answers, users[u].username, q, a).ChallengePassed?
    ensures ResetStep(users, users[u].username, password, password).outcome == Ok
    ensures ChecksPassword(ResetStep(users, users[u].username, password, password).users[u], password)
  {
    var name := users[u].username;
    LoginAfterReset(users, name, password, u);
  }
}
