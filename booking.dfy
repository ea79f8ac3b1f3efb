/**
 * The booking transition of the `booking` view over the appointment table.
 * The acting user comes from the login requirement; the note is the form
 * field as submitted (absent when the field is missing).
 */
module Booking {
  import opened Wrappers
  import opened Models
  import Listing

  datatype BookResult = BookResult(outcome: Outcome, appointments: map<AppointmentId, Appointment>)

  /**
   * Booking `id` for `customer` at time `now`: a slot that started before
   * `now` is refused and nothing changes; otherwise the slot gets the
   * customer as owner, the note, and a fresh save time -- whoever owned it.
   */
  function BookStep(appts: map<AppointmentId, Appointment>, id: AppointmentId, customer: UserId,
                    note: Option<string>, now: Time): (r: BookResult)
    requires id in appts
    ensures r.outcome == Ok || r.outcome == Rejected
    ensures r.outcome == Ok <==> now <= appts[id].startDate
    ensures r.outcome == Rejected ==> r.appointments == appts
    ensures r.appointments.Keys == appts.Keys
    ensures forall other :: other in appts && other != id ==> r.appointments[other] == appts[other]
    ensures r.outcome == Ok ==>
              && r.appointments[id].owner == Some(customer)
              && r.appointments[id].msgText == note
              && r.appointments[id].startDate == appts[id].startDate
              && r.appointments[id].bookDate == now
  {
    var booked := appts[id];
    if booked.startDate < now then BookResult(Rejected, appts)
    else BookResult(Ok, appts[id := booked.(owner := Some(customer), msgText := note, bookDate := now)])
  }

  /** After a successful booking the slot is no longer open. */
  lemma {:induction false} BookedIsClosed(appts: map<AppointmentId, Appointment>, id: AppointmentId, customer: UserId,
                                          note: Option<string>, now: Time, later: Time)
    requires id in appts
    requires BookStep(appts, id, customer, note, now).outcome == Ok
    ensures !IsOpenForBooking(BookStep(appts, id, customer, note, now).appointments[id], later)
    ensures id !in Listing.AvailableAppointments(BookStep(appts, id, customer, note, now).appointments, later)
    ensures id in Listing.UserAppointments(BookStep(appts, id, customer, note, now).appointments, customer)
  {
    var after := BookStep(appts, id, customer, note, now).appointments;
    assert after[id].owner == Some(customer);
  }

  /**
   * A slot's owner is not checked: a second booker replaces the first, and
   * the first no longer sees the slot among their own.
   */
  lemma {:induction false} SecondBookerOverwrites(appts: map<AppointmentId, Appointment>, id: AppointmentId,
                                                  first: UserId, second: UserId, note: Option<string>, now: Time)
    requires id in appts && appts[id].owner == Some(first) && first != second
    requires now <= appts[id].startDate
    ensures BookStep(appts, id, second, note, now).outcome == Ok
    ensures BookStep(appts, id, second, note, now).appointments[id].owner == Some(second)
    ensures id !in Listing.UserAppointments(BookStep(appts, id, second, note, now).appointments, first)
  {
    var after := BookStep(appts, id, second, note, now).appointments;
    assert after[id].owner == Some(second);
  }

  /**
   * An unowned slot starting exactly at `now` is listed on the home page
   * and can be booked, yet is not open for booking.
   */
  lemma {:induction false} StartingNowListedBookableNotOpen(appts: map<AppointmentId, Appointment>, id: AppointmentId,
                                                            customer: UserId, note: Option<string>, now: Time)
    requires id in appts && appts[id].owner.None? && appts[id].startDate == now
    ensures id in Listing.AvailableAppointments(appts, now)
    ensures BookStep(appts, id, customer, note, now).outcome == Ok
    ensures !IsOpenForBooking(appts[id], now)
  {
    Listing.ListedIffOpenOrStartingNow(appts, now, id);
  }

  /** Every open slot is listed and can be booked. */
  lemma {:induction false} OpenIsListedAndBookable(appts: map<AppointmentId, Appointment>, id: AppointmentId,
                                                   customer: UserId, note: Option<string>, now: Time)
    requires id in appts && IsOpenForBooking(appts[id], now)
    ensures id in Listing.AvailableAppointments(appts, now)
    ensures BookStep(appts, id, customer, note, now).outcome == Ok
  {
    Listing.ListedIffOpenOrStartingNow(appts, now, id);
  }
}
