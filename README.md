# Appointment booking and password recovery, modelled in Dafny

This project models the domain logic of a small booking web application. It
also models the application's self-service password recovery, which has known
weaknesses on purpose. The persisted records are kept in an in-memory store,
`Store.Database`. It has one map per table:

- appointments, keyed by id;
- users, keyed by id, each with a unique username;
- preset recovery questions, with the next id the table hands out;
- recovery answers, keyed by the owning user.

Each view that writes to the store is a method of `Store.Database`:

- booking a slot;
- saving a recovery answer, which updates the row if there is one and creates it otherwise;
- resetting a password;
- the start-up seeding of the three preset questions.

Each method is tied to a pure step function. The lemmas about the views'
behaviour are proved about those functions. The read-only views are functions
over the tables: the home-page listings, the roster, the recovery challenge and
the prior-answer lookup. The current time is a parameter, and times are
integers. The signed-in user is also a parameter.

The modules follow the source files:

- `Models` covers `pages/models.py`.
- `Validation`, `Listing`, `Booking`, `Answers` and `Recovery` cover the parts of `pages/views.py`.
- `Seeding` covers `pages/signals.py`.
- `Store` holds the stateful versions of the operations.
- `Wrappers` has `Option` and the `Outcome` type a view ends in. The outcomes are `Ok`, `ChallengePassed`, `ValidationError`, `NotFound`, `Rejected` and `IntegrityError`. The seeding hook ends in a failure flag instead, which is set when `get_or_create` raises.

The model follows the code as written, including three behaviours that do not
agree with each other or with what a reader of the app would expect:

- **The boundary at `now`.** `IsOpenForBooking` treats a slot starting at `now` as closed. But booking only refuses slots that started before `now`, and the home page lists slots starting at or after `now`. So a slot starting exactly at `now` is listed and bookable but not open (`Booking.StartingNowListedBookableNotOpen`).
- **No ownership check on booking.** A later booker replaces the earlier one (`Booking.SecondBookerOverwrites`). A second booker of an owned slot would be expected to be refused; the code does not refuse, and the model follows the code.
- **Reset without challenge.** The password reset takes only a username, so it succeeds for a user who could never pass the challenge (`Recovery.ResetWithoutChallenge`).

The model also follows the code in two more places where a stricter rule would
be expected:

- The challenge validates only the answer and the username. The question id is not checked against the allow-list; it is only looked up.
- Booking refuses only `start_date < now`. A slot starting exactly at `now` is not refused, which `start_date <= now` would do.

## Model

| member | source | states |
|---|---|---|
| `Models.IsOpenForBooking` | pages/models.py:13-17 | open iff there is no owner and the start is strictly after `now`; an owned slot is never open; a slot starting at `now` is not open |
| `Models.GiveMessage` | pages/models.py:19-21 | a stored note comes back unchanged; a missing note formats as "None" |
| `Models.QuestionKeys` | pages/models.py:30-34 | exactly three keys, pairwise distinct, in list order: `mother_maiden`, `first_pet`, `favorite_color` |
| `Models.DictOf` | pages/models.py:41 | `dict(pairs)` has exactly the keys of the pairs |
| `Models.DictOfDistinct` | pages/models.py:41 | with distinct keys, `dict(pairs)` maps each key to its own pair's value |
| `Models.QuestionStr` | pages/models.py:40-41 | a known key shows its display text; any other text shows unchanged |
| `Validation.AllowedPrefixLength` | pages/views.py:94 | the greedy run of `[\w\s.,!?-]*`: every character in it is allowed, and the character after it is not |
| `Validation.MatchesAllowList` | pages/views.py:94 | the regex check as executed, the greedy run followed by `$` at the end or before a final newline, holds iff every character is allowed |
| `Validation.MatchesAllowListIff` | pages/views.py:94 | the regex check as executed equals the pattern's meaning (a prefix followed by `$`, end or before a final newline) and equals "every character is allowed" |
| `Listing.OrderBy` | pages/views.py:22 | an `order_by` result holds each id of the set exactly once, ordered by start time with ties broken by id |
| `Listing.OrderedUnique` | pages/views.py:22 | two ordered, repetition-free listings of the same ids are equal, so the order fixes the listing |
| `Listing.AscendingByStart` | pages/views.py:22 | in an ascending listing, earlier entries never start later |
| `Listing.DescendingByStart` | pages/views.py:27 | in a descending listing, earlier entries never start earlier |
| `Listing.AvailableAppointments` | pages/views.py:19-22 | exactly the unowned slots with start time at or after `now`, each once, ascending |
| `Listing.UserAppointments` | pages/views.py:25-27 | exactly the slots owned by the user, each once, descending |
| `Listing.AllAppointments` | pages/views.py:78 | every appointment whoever owns it, each once, ascending; it takes no acting user |
| `Listing.ListedIffOpenOrStartingNow` | pages/views.py:19-22 | listed on the home page iff open for booking, or unowned and starting exactly at `now` |
| `Booking.BookStep` | pages/views.py:41-69 | refused and nothing changed iff the slot started before `now`; otherwise owner := booker, note := note and save time := `now`, whoever owned it before; start time and all other slots unchanged |
| `Booking.BookedIsClosed` | pages/views.py:63-66 | a booked slot is not open, is no longer listed as available, and is listed among the booker's slots |
| `Booking.SecondBookerOverwrites` | pages/views.py:63-66 | booking a slot that another user owns succeeds and replaces the owner, and the slot leaves the first owner's list |
| `Booking.StartingNowListedBookableNotOpen` | pages/views.py:49 | an unowned slot starting at `now` is listed and bookable, but not open |
| `Booking.OpenIsListedAndBookable` | pages/views.py:19-22 | every open slot is listed and can be booked |
| `Answers.AnswerCheck` | pages/views.py:94-101 | accepted iff every character is allowed and the length is at least 4; a bad character is reported before a short length |
| `Answers.SaveAnswerStep` | pages/views.py:89-114 | rejected input leaves the table unchanged; accepted input leaves the user exactly one row with the submitted question and text; other users' rows are unchanged; the table grows only when the user had no row |
| `Answers.SecondSaveUpdates` | pages/views.py:105-110 | two accepted saves by one user leave one row holding the second save, and the table grows by at most one row |
| `Answers.CreateAnswerStep` | pages/models.py:45 | an insert fails with an integrity error and changes nothing iff the user already has a row; otherwise it adds exactly that row |
| `Answers.SecondCreateFails` | pages/models.py:45 | of two inserts for one user, the first succeeds and the second fails |
| `Answers.PriorAnswer` | pages/views.py:116-118 | the signed-in user's row if there is one, otherwise none |
| `Recovery.FindUser` | pages/views.py:148 | `User.objects.get(username=...)` finds a user iff one has that name, and returns that user |
| `Recovery.Challenge` | pages/views.py:130-173 | passes iff the answer and the username match the allow-list, the question exists, and the user's stored row equals (question, answer); a bad answer is reported first, then a bad username, then a missing user or question; a wrong answer for an existing user and question is rejected; if it passes, it carries the username forward |
| `Recovery.ResetStep` | pages/views.py:186-240 | the credential changes iff the user exists, the two passwords are equal and the password is at least 8 long; a missing user is reported before a mismatch, and a mismatch before a password under 8 characters; only the named user's credential changes, and no username changes |
| `Recovery.ResetKeepsUniqueUsernames` | pages/views.py:230-231 | a reset keeps usernames unique |
| `Recovery.LoginAfterReset` | pages/views.py:230-231 | after a reset with a valid password, that password logs the user in |
| `Recovery.ResetWithoutChallenge` | pages/views.py:186-231 | for a user with no stored answer every challenge fails, and the reset still succeeds and installs the new password |
| `Seeding.GetOrCreate` | pages/signals.py:10 | fails iff two or more rows hold the text, and then writes nothing; one row means nothing changes; no row means exactly one new row; afterwards exactly one row holds the text; existing rows are kept |
| `Seeding.GetOrCreateAll` | pages/signals.py:9-10 | existing rows are kept, and every new row holds one of the keys |
| `Seeding.CreateDefaultQuestions` | pages/signals.py:5-10 | another app's migration leaves the table unchanged; existing rows are kept, and new rows hold only preset keys |
| `Seeding.GetOrCreateFrame` | pages/signals.py:10 | `get_or_create` for one text leaves the rows of every other text unchanged |
| `Seeding.GetOrCreateAllFrame` | pages/signals.py:9-10 | the loop leaves the rows of texts outside the keys unchanged |
| `Seeding.StopsAtFailure` | pages/signals.py:9-10 | once a `get_or_create` raises, the later keys are not reached |
| `Seeding.CompletedRunSettles` | pages/signals.py:9-10 | a run that does not fail leaves exactly one row for each key |
| `Seeding.SettledRunIsNoOp` | pages/signals.py:10 | when every key already has one row, a run changes nothing |
| `Seeding.RerunAfterFailure` | pages/signals.py:9-10 | rerunning a failed run writes nothing and fails again |
| `Seeding.GetOrCreateAllIdempotent` | pages/signals.py:9-10 | running the loop twice leaves the same table and result as running it once |
| `Seeding.CreateDefaultQuestionsIdempotent` | pages/signals.py:5-10 | the start-up hook is idempotent, for any sender |
| `Seeding.CreateDefaultQuestionsSettles` | pages/signals.py:8-10 | after a completed run, every preset key has exactly one Question row |
| `Seeding.CreateAddsOne` | pages/signals.py:10 | creating a missing text adds exactly that text to the stored texts |
| `Seeding.FreshKeysAdded` | pages/signals.py:9-10 | when no key has a row yet, nothing fails, the table grows by one row per key, and every key is stored |
| `Seeding.SeedEmptyTable` | pages/signals.py:9-10 | on an empty table the hook completes with exactly 3 rows, whose texts are exactly the preset keys |
| `Store.Database.Book` | pages/views.py:41-69 | the new appointment table and the outcome are those of `BookStep`; the other tables are unchanged; the store constraints still hold |
| `Store.Database.SaveAnswer` | pages/views.py:86-114 | the new answer table and the outcome are those of `SaveAnswerStep`; the other tables are unchanged |
| `Store.Database.CreateAnswer` | pages/models.py:45 | the new answer table and the outcome are those of `CreateAnswerStep` |
| `Store.Database.ChangePassword` | pages/views.py:186-240 | the new user table and the outcome are those of `ResetStep`; the other tables are unchanged |
| `Store.Database.GetOrCreateQuestion` | pages/signals.py:10 | the new question table and the failure flag are those of `GetOrCreate` |
| `Store.Database.CreateDefaultQuestions` | pages/signals.py:5-10 | the loop over the preset list leaves the question table and the failure flag of `Seeding.CreateDefaultQuestions`; nothing else changes |

## Left out

- Template rendering, flash messages, redirects and HTTP request parsing: each view ends in an `Outcome` instead.
- `@login_required`, `@csrf_exempt` and the commented-out `@staff_member_required`: the signed-in user is a parameter. The roster function takes no user, which is the access-control gap.
- `@transaction.atomic`, and races between bookings or between answer saves: every operation is sequential.
- Password hashing inside `set_password`: the credential is `PasswordHash(password)`, an opaque value that a reset overwrites.
- `timezone.now()`: `now` is a parameter, and times are integers.
- Uncaught exceptions become preconditions or are excluded by the types. The ones that raise are:
  - an unknown `start_date_id` in booking, or an unknown `question_id` in the question view (`DoesNotExist`, not caught);
  - a non-numeric id string (`ValueError`);
  - a missing `answer`, or a missing `username` in the challenge, because `re.match` raises on None;
  - both passwords missing in the reset, because `len(None)` raises once the user is found.
- Missing form fields that the code handles: the model types the username, the passwords and the question id as `string` and `QuestionId`, so these None cases are excluded and not modelled.
  - A missing `username` in the reset finds no user, so it ends in "Check user!".
  - Exactly one missing password in the reset differs from the other, so it ends in "Passwords do not match!".
  - A missing `question_id` in the challenge finds no question, so it ends in "Invalid username or question!".
- The note of a booking can itself be absent, because `msg_text` may be null. So the note is an `Option`. Length limits on the text columns (`max_length`) are not enforced.
- `Validation.AllowedPrefixLength`: `\w` and `\s` are restricted to ASCII. Non-ASCII letters, digits and spaces pass Python's check, but the model rejects them.
- Listing order: the database leaves ties in start time unordered. The model breaks them by id. The listing functions are ghost, so they do not execute.
- The commented-out note validation in booking and the stricter password rules in the reset: they are not live code.
- The `print` in the reset view, and the `now` value handed to the home template.
- The GET branches. Booking redirects without any change. The question and forgot views render the question list, which is not modelled, and the prior answer (`Answers.PriorAnswer`).
- `Appointment.__str__`: it only formats a datetime and a username for display.
- Row ids of the answer table: answers are keyed by their user. The automatic `book_date` and `saved_date` at record creation are taken as given.
- Django's built-in password-reset views, admin registration and app configuration: these are framework wiring.
