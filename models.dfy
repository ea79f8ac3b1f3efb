/**
 * The records of the booking app: appointments, the three preset recovery
 * questions, users and their recovery answers. Times are integers.
 */
module Models {
  import opened Wrappers

  type Time = int
  type UserId = nat
  type AppointmentId = nat
  type QuestionId = nat

  /**
   * An appointment slot. `bookDate` is refreshed on every save; `msgText`
   * and `owner` are nullable and are set when a user books the slot.
   */
  datatype Appointment = Appointment(
    startDate: Time,
    bookDate: Time,
    msgText: Option<string>,
    owner: Option<UserId>)

  /** Open when nobody owns the slot and it starts strictly after `now`. */
  function IsOpenForBooking(a: Appointment, now: Time): (open: bool)
    ensures open <==> a.owner.None? && now < a.startDate
    ensures a.owner.Some? ==> !open
    ensures a.startDate == now ==> !open
  {
    if a.owner.Some? || a.startDate <= now then false else true
  }

  /** The note formatted into a string; a missing note formats as "None". */
  function GiveMessage(a: Appointment): (m: string)
    ensures a.msgText.Some? ==> m == a.msgText.value
    ensures a.msgText.None? ==> m == "None"
  {
    match a.msgText
    case Some(text) => text
    case None => "None"
  }

  /** The preset recovery questions: stored key and display text. */
  const PasswordQuestions: seq<(string, string)> := [
    ("mother_maiden", "What is your mother's maiden name?"),
    ("first_pet", "What was the name of your first pet?"),
    ("favorite_color", "What is your favorite color?")
  ]

  /** The stored keys, in the order of the list. */
  function QuestionKeys(): (keys: seq<string>)
    ensures |keys| == |PasswordQuestions| == 3
    ensures forall i :: 0 <= i < |keys| ==> keys[i] == PasswordQuestions[i].0
    ensures forall i, j :: 0 <= i < j < |keys| ==> keys[i] != keys[j]
    ensures forall k :: k in keys <==> k == "mother_maiden" || k == "first_pet" || k == "favorite_color"
  {
    var keys := seq(|PasswordQuestions|, i requires 0 <= i < |PasswordQuestions| => PasswordQuestions[i].0);
    assert keys == ["mother_maiden", "first_pet", "favorite_color"];
    keys
  }

  /** Python's `dict(pairs)`: later pairs overwrite earlier ones. */
  function DictOf(pairs: seq<(string, string)>): (d: map<string, string>)
    ensures d.Keys == set i | 0 <= i < |pairs| :: pairs[i].0
  {
    if pairs == [] then map[]
    else
      var init := pairs[..|pairs| - 1];
      var last := pairs[|pairs| - 1];
      var d := DictOf(init)[last.0 := last.1];
      assert forall i :: 0 <= i < |pairs| - 1 ==> init[i] == pairs[i];
      d
  }

  /** With distinct keys, `dict(pairs)` maps each key to its own pair's value. */
  lemma {:induction false} DictOfDistinct(pairs: seq<(string, string)>, i: nat)
    requires forall p, q :: 0 <= p < q < |pairs| ==> pairs[p].0 != pairs[q].0
    requires i < |pairs|
    ensures pairs[i].0 in DictOf(pairs) && DictOf(pairs)[pairs[i].0] == pairs[i].1
  {
    var init := pairs[..|pairs| - 1];
    if i < |pairs| - 1 {
      assert init[i] == pairs[i];
      DictOfDistinct(init, i);
    }
  }

  /** `Question.__str__`: the display text of a known key, else the raw text. */
  function QuestionStr(text: string): (s: string)
    ensures forall i :: 0 <= i < |PasswordQuestions| && PasswordQuestions[i].0 == text ==>
              s == PasswordQuestions[i].1
    ensures (forall i :: 0 <= i < |PasswordQuestions| ==> PasswordQuestions[i].0 != text) ==> s == text
  {
    var d := DictOf(PasswordQuestions);
    forall i | 0 <= i < |PasswordQuestions| ensures d[PasswordQuestions[i].0] == PasswordQuestions[i].1 {
      DictOfDistinct(PasswordQuestions, i);
    }
    if text in d then d[text] else text
  }

  /** The stored form of a password; hashing itself is not modelled. */
  datatype Credential = PasswordHash(password: string)

  /** An account of the authentication framework, as far as this app uses it. */
  datatype User = User(username: string, credential: Credential)

  /** Logging in with `password` succeeds for `u`. */
  predicate ChecksPassword(u: User, password: string) {
    u.credential == PasswordHash(password)
  }

  /** Usernames identify users (the framework's unique constraint). */
  ghost predicate UniqueUsernames(users: map<UserId, User>) {
    forall a, b :: a in users && b in users && users[a].username == users[b].username ==> a == b
  }

  /** A user's recovery answer; both links are nullable. */
  datatype Answer = Answer(
    recoveryQuestion: Option<QuestionId>,
    answer: Option<string>,
    savedDate: Time)
}
