/**
 * The queries behind the home page and the roster page: filter the
 * appointment table and order it by start time. Ties in start time, which
 * the database leaves in no particular order, are broken by id.
 */
module Listing {
  import opened Wrappers
  import opened Models

  /** The sort key: the start time, negated for a descending order. */
  function Rank(a: Appointment, descending: bool): int {
    if descending then -a.startDate else a.startDate
  }

  /** `x` may come before `y` in the listing. */
  predicate Precedes(appts: map<AppointmentId, Appointment>, descending: bool, x: AppointmentId, y: AppointmentId)
    requires x in appts && y in appts
  {
    var rx, ry := Rank(appts[x], descending), Rank(appts[y], descending);
    rx < ry || (rx == ry && x <= y)
  }

  predicate InTable(appts: map<AppointmentId, Appointment>, s: seq<AppointmentId>) {
    forall i :: 0 <= i < |s| ==> s[i] in appts
  }

  predicate Distinct(s: seq<AppointmentId>) {
    forall i, j :: 0 <= i < j < |s| ==> s[i] != s[j]
  }

  predicate Ordered(appts: map<AppointmentId, Appointment>, descending: bool, s: seq<AppointmentId>)
    requires InTable(appts, s)
  {
    forall i, j :: 0 <= i < j < |s| ==> Precedes(appts, descending, s[i], s[j])
  }

  /** Ascending start times, as `order_by('start_date')`. */
  lemma AscendingByStart(appts: map<AppointmentId, Appointment>, s: seq<AppointmentId>, i: nat, j: nat)
    requires InTable(appts, s) && Ordered(appts, false, s)
    requires i < j < |s|
    ensures appts[s[i]].startDate <= appts[s[j]].startDate
  {
    assert Precedes(appts, false, s[i], s[j]);
  }

  /** Descending start times, as `order_by('-start_date')`. */
  lemma DescendingByStart(appts: map<AppointmentId, Appointment>, s: seq<AppointmentId>, i: nat, j: nat)
    requires InTable(appts, s) && Ordered(appts, true, s)
    requires i < j < |s|
    ensures appts[s[i]].startDate >= appts[s[j]].startDate
  {
    assert Precedes(appts, true, s[i], s[j]);
  }

  /** A non-empty set of ids has a first element in the order. */
  lemma {:induction false} FirstExists(appts: map<AppointmentId, Appointment>, ids: set<AppointmentId>, descending: bool)
    requires ids != {} && ids <= appts.Keys
    ensures exists m :: m in ids && forall y :: y in ids ==> Precedes(appts, descending, m, y)
    decreases ids
  {
    var x :| x in ids;
    if ids == {x} {
      assert forall y :: y in ids ==> Precedes(appts, descending, x, y);
    } else {
      var rest := ids - {x};
      FirstExists(appts, rest, descending);
      var m :| m in rest && forall y :: y in rest ==> Precedes(appts, descending, m, y);
      if Precedes(appts, descending, x, m) {
        forall y | y in ids ensures Precedes(appts, descending, x, y) {
          if y != x { assert Precedes(appts, descending, m, y); }
        }
      } else {
        assert forall y :: y in ids ==> Precedes(appts, descending, m, y);
      }
    }
  }

  /** The ids of `ids` listed once each, in the order. */
  ghost function OrderBy(appts: map<AppointmentId, Appointment>, ids: set<AppointmentId>, descending: bool): (r: seq<AppointmentId>)
    requires ids <= appts.Keys
    ensures InTable(appts, r)
    ensures forall x :: x in r <==> x in ids
    ensures Distinct(r)
    ensures Ordered(appts, descending, r)
    decreases ids
  {
    if ids == {} then []
    else
      FirstExists(appts, ids, descending);
      var m :| m in ids && forall y :: y in ids ==> Precedes(appts, descending, m, y);
      var rest := OrderBy(appts, ids - {m}, descending);
      assert forall j :: 0 <= j < |rest| ==> rest[j] in ids;
      [m] + rest
  }

  /**
   * A listing is determined by the ids it holds: two ordered,
   * repetition-free listings of the same ids are the same sequence.
   */
  lemma {:induction false} OrderedUnique(appts: map<AppointmentId, Appointment>, descending: bool,
                                         s: seq<AppointmentId>, t: seq<AppointmentId>)
    requires InTable(appts, s) && InTable(appts, t)
    requires Distinct(s) && Distinct(t)
    requires Ordered(appts, descending, s) && Ordered(appts, descending, t)
    requires forall x :: x in s <==> x in t
    ensures s == t
  {
    SameElementsEmpty(s, t);
    if s != [] {
      assert s[0] in t;
      assert t[0] in s;
      assert s[0] == t[0];
      forall x ensures x in s[1..] <==> x in t[1..] {
        if x in s[1..] {
          var k :| 1 <= k < |s| && s[k] == x;
          assert x in s;
          var l :| 0 <= l < |t| && t[l] == x;
          assert l != 0 && t[1..][l - 1] == x;
        }
        if x in t[1..] {
          var k :| 1 <= k < |t| && t[k] == x;
          assert x in t;
          var l :| 0 <= l < |s| && s[l] == x;
          assert l != 0 && s[1..][l - 1] == x;
        }
      }
      OrderedUnique(appts, descending, s[1..], t[1..]);
      assert s == [s[0]] + s[1..] && t == [t[0]] + t[1..];
    }
  }

  lemma SameElementsEmpty(s: seq<AppointmentId>, t: seq<AppointmentId>)
    requires forall x :: x in s <==> x in t
    ensures s == [] <==> t == []
  {
    if s != [] { assert s[0] in t; }
    if t != [] { assert t[0] in s; }
  }

  /**
   * `available_appointments`: the unowned appointments starting at or after
   * `now`, earliest first.
   */
  ghost function AvailableAppointments(appts: map<AppointmentId, Appointment>, now: Time): (r: seq<AppointmentId>)
    ensures InTable(appts, r) && Distinct(r)
    ensures forall id :: id in r <==> id in appts && appts[id].owner.None? && appts[id].startDate >= now
    ensures Ordered(appts, false, r)
  {
    OrderBy(appts, set id | id in appts && appts[id].owner.None? && appts[id].startDate >= now, false)
  }

  /** `user_appointments`: the appointments owned by `user`, latest first. */
  ghost function UserAppointments(appts: map<AppointmentId, Appointment>, user: UserId): (r: seq<AppointmentId>)
    ensures InTable(appts, r) && Distinct(r)
    ensures forall id :: id in r <==> id in appts && appts[id].owner == Some(user)
    ensures Ordered(appts, true, r)
  {
    OrderBy(appts, set id | id in appts && appts[id].owner == Some(user), true)
  }

  /**
   * The roster page: every appointment, whoever owns it, earliest first.
   * It takes no acting user, so nothing restricts what it shows.
   */
  ghost function AllAppointments(appts: map<AppointmentId, Appointment>): (r: seq<AppointmentId>)
    ensures InTable(appts, r) && Distinct(r) && |r| == |appts|
    ensures forall id :: id in r <==> id in appts
    ensures Ordered(appts, false, r)
  {
    var r := OrderBy(appts, appts.Keys, false);
    DistinctCard(r, appts.Keys);
    r
  }

  lemma {:induction false} DistinctCard(s: seq<AppointmentId>, ids: set<AppointmentId>)
    requires Distinct(s)
    requires forall x :: x in s <==> x in ids
    ensures |s| == |ids|
  {
    if s != [] {
      var tail := s[1..];
      forall x ensures x in tail <==> x in ids - {s[0]} {
        if x in tail {
          var k :| 1 <= k < |s| && s[k] == x;
        }
      }
      DistinctCard(tail, ids - {s[0]});
    } else {
      assert forall x :: x !in ids;
      assert ids == {};
    }
  }

  /**
   * The home page lists exactly the open appointments plus the unowned ones
   * starting exactly at `now`, which are listed but not open.
   */
  lemma ListedIffOpenOrStartingNow(appts: map<AppointmentId, Appointment>, now: Time, id: AppointmentId)
    requires id in appts
    ensures id in AvailableAppointments(appts, now) <==>
              IsOpenForBooking(appts[id], now) || (appts[id].owner.None? && appts[id].startDate == now)
  {
  }
}
