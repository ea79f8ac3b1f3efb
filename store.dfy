/**
 * The persisted state as one in-memory store, with the operations of the
 * views that write to it. Each method does what its view does, step by
 * step, and is tied to the step function that states its meaning.
 */
module Store {
  import opened Wrappers
  import opened Models
  import opened Validation
  import Booking
  import Answers
  import Recovery
  import Seeding

  class Database {
    var appointments: map<AppointmentId, Appointment>
    var users: map<UserId, User>
    var questions: Seeding.QuestionTable
    var answers: map<UserId, Answer>

    /** The storage constraints: unique usernames, valid ids, foreign keys. */
    ghost predicate Valid()
      reads this
    {
      && UniqueUsernames(users)
      && Seeding.TableValid(questions)
      && (forall id :: id in appointments && appointments[id].owner.Some? ==> appointments[id].owner.value in users)
      && answers.Keys <= users.Keys
      && (forall u :: u in answers && answers[u].recoveryQuestion.Some? ==>
                        answers[u].recoveryQuestion.value in questions.rows)
    }

    /** A freshly migrated database: given slots and accounts, no questions or answers yet. */
    constructor (appointments: map<AppointmentId, Appointment>, users: map<UserId, User>)
      requires UniqueUsernames(users)
      requires forall id :: id in appointments && appointments[id].owner.Some? ==> appointments[id].owner.value in users
      ensures Valid()
      ensures this.appointments == appointments && this.users == users
      ensures questions == Seeding.QuestionTable(map[], 1) && answers == map[]
    {
      this.appointments := appointments;
      this.users := users;
      questions := Seeding.QuestionTable(map[], 1);
      answers := map[];
    }

    /** The `booking` view on a POST by `customer`. */
    method Book(id: AppointmentId, customer: UserId, note: Option<string>, now: Time) returns (outcome: Outcome)
      requires Valid() && id in appointments && customer in users
      modifies this
      ensures Valid()
      ensures Booking.BookResult(outcome, appointments) == Booking.BookStep(old(appointments), id, customer, note, now)
      ensures users == old(users) && questions == old(questions) && answers == old(answers)
    {
      var bookedTime := appointments[id];
      if bookedTime.startDate < now {
        outcome := Rejected;
        return;
      }
      // the view's "booked_time is not None and customer is not None" always holds here
      appointments := appointments[id := bookedTime.(owner := Some(customer), msgText := note, bookDate := now)];
      outcome := Ok;
    }

    /** The `question` view on a POST by `user`: validate, then upsert. */
    method SaveAnswer(user: UserId, question: QuestionId, text: string, now: Time) returns (outcome: Outcome)
      requires Valid() && user in users && question in questions.rows
      modifies this
      ensures Valid()
      ensures Answers.SaveResult(outcome, answers) == Answers.SaveAnswerStep(old(answers), user, question, text, now)
      ensures appointments == old(appointments) && users == old(users) && questions == old(questions)
    {
      MatchesAllowListIff(text);
      if !MatchesAllowList(text) {
        outcome := ValidationError(AnswerInvalidCharacters);
        return;
      }
      if |text| < MinAnswerLength {
        outcome := ValidationError(AnswerTooShort);
        return;
      }
      // update_or_create keyed by the user: the row is replaced whether it existed or not
      answers := answers[user := Answer(Some(question), Some(text), now)];
      outcome := Ok;
    }

    /** `Answer.objects.create`: an insert checked by the one-answer-per-user constraint. */
    method CreateAnswer(user: UserId, question: Option<QuestionId>, text: Option<string>, now: Time)
      returns (outcome: Outcome)
      requires Valid() && user in users && (question.Some? ==> question.value in questions.rows)
      modifies this
      ensures Valid()
      ensures Answers.SaveResult(outcome, answers) == Answers.CreateAnswerStep(old(answers), user, question, text, now)
      ensures appointments == old(appointments) && users == old(users) && questions == old(questions)
    {
      if user in answers {
        outcome := IntegrityError;
        return;
      }
      answers := answers[user := Answer(question, text, now)];
      outcome := Ok;
    }

    /** The `changepswd` view on a POST; anyone can reach it. */
    method ChangePassword(name: string, password1: string, password2: string) returns (outcome: Outcome)
      requires Valid()
      modifies this
      ensures Valid()
      ensures Recovery.ResetResult(outcome, users) == Recovery.ResetStep(old(users), name, password1, password2)
      ensures appointments == old(appointments) && questions == old(questions) && answers == old(answers)
    {
      if !(exists u :: u in users && users[u].username == name) {
        outcome := NotFound;
        return;
      }
      var user :| user in users && users[user].username == name;
      if password1 != password2 {
        outcome := ValidationError(PasswordsDoNotMatch);
        return;
      }
      if |password1| < Recovery.MinPasswordLength {
        outcome := ValidationError(PasswordTooShort);
        return;
      }
      users := users[user := users[user].(credential := PasswordHash(password1))];
      outcome := Ok;
    }

    /**
     * `Question.objects.get_or_create(text=text)`; false when several rows
     * already hold the text (MultipleObjectsReturned).
     */
    method GetOrCreateQuestion(text: string) returns (ok: bool)
      requires Valid()
      modifies this
      ensures Valid()
      ensures Seeding.Seeded(questions, !ok) == Seeding.GetOrCreate(old(questions), text)
      ensures appointments == old(appointments) && users == old(users) && answers == old(answers)
    {
      var found := set id | id in questions.rows && questions.rows[id] == text;
      assert found == Seeding.RowsWithText(questions.rows, text);
      if |found| >= 2 {
        ok := false;
        return;
      }
      if |found| == 0 {
        questions := Seeding.QuestionTable(questions.rows[questions.nextId := text], questions.nextId + 1);
      }
      ok := true;
    }

    /**
     * The post-migrate hook: for the `pages` app, get-or-create a row per
     * preset key, stopping where a key already has several rows.
     */
    method CreateDefaultQuestions(senderName: string) returns (completed: bool)
      requires Valid()
      modifies this
      ensures Valid()
      ensures Seeding.Seeded(questions, !completed) == Seeding.CreateDefaultQuestions(old(questions), senderName)
      ensures appointments == old(appointments) && users == old(users) && answers == old(answers)
    {
      completed := true;
      if senderName != "pages" {
        return;
      }
      ghost var keys := QuestionKeys();
      var i := 0;
      while i < |PasswordQuestions|
        invariant 0 <= i <= |keys|
        invariant Valid()
        invariant Seeding.GetOrCreateAll(old(questions), keys[..i]) == Seeding.Seeded(questions, false)
        invariant appointments == old(appointments) && users == old(users) && answers == old(answers)
      {
        var key := PasswordQuestions[i].0;
        ghost var next := keys[..i + 1];
        assert next[..i] == keys[..i] && key == keys[i] == next[i];
        completed := GetOrCreateQuestion(key);
        if !completed {
          Seeding.StopsAtFailure(old(questions), keys, i + 1);
          return;
        }
        i := i + 1;
      }
      assert keys[..i] == keys;
    }
  }
}
