/** The appointment store and its booking rules: three read-only queries over
    the stored records, booking with the one-booking-per-slot rule, and
    cancellation. The persisted collection (a JSON array under one storage
    key) is the field `appointments` of an `AppointmentStore`; every
    operation reads it whole and writes it back whole. */
module AppointmentService {

  import opened Wrappers
  import opened Sequences

  datatype Status = Booked | Completed | Cancelled

  datatype Appointment = Appointment(
    id: string,
    patientId: string,
    doctorId: string,
    date: string,    // YYYY-MM-DD, compared as text
    time: string,    // HH:mm, compared as text
    reason: string,
    status: Status)

  /** What a caller hands to booking: an appointment without id and status. */
  datatype BookingRequest = BookingRequest(
    patientId: string,
    doctorId: string,
    date: string,
    time: string,
    reason: string)

  /** The one way booking fails: "This time slot is no longer available." */
  datatype BookingError = SlotUnavailable

  /** `a` is a booked appointment holding the slot (doctorId, date, time). */
  predicate Holds(a: Appointment, doctorId: string, date: string, time: string)
  {
    a.status == Booked && a.doctorId == doctorId && a.date == date && a.time == time
  }

  /** The conflict test of booking: some booked record holds the slot. */
  predicate SlotTaken(store: seq<Appointment>, doctorId: string, date: string, time: string)
  {
    exists i :: 0 <= i < |store| && Holds(store[i], doctorId, date, time)
  }

  /** The store invariant: no two booked records share (doctorId, date, time). */
  ghost predicate Exclusive(store: seq<Appointment>)
  {
    forall i, j :: 0 <= i < j < |store| && store[i].status == Booked && store[j].status == Booked ==>
      (store[i].doctorId, store[i].date, store[i].time) != (store[j].doctorId, store[j].date, store[j].time)
  }

  ghost predicate IdsUnique(store: seq<Appointment>)
  {
    forall i, j :: 0 <= i < j < |store| ==> store[i].id != store[j].id
  }

  // ---------------------------------------------------------------------
  // Queries

  /** All of a patient's appointments, in every status, in store order. */
  function ForPatient(store: seq<Appointment>, patientId: string): (r: seq<Appointment>)
    ensures forall a :: a in r <==> a in store && a.patientId == patientId
    ensures forall a :: multiset(r)[a] == if a.patientId == patientId then multiset(store)[a] else 0
    ensures IsSubsequence(r, store)
  {
    var mine := (a: Appointment) => a.patientId == patientId;
    FilterMembers(store, mine);
    FilterIsSubsequence(store, mine);
    Filter(store, mine)
  }

  /** The booked appointments of the patients on a doctor's roster, in store
      order; cancelled and completed records are left out. */
  function ForDoctor(store: seq<Appointment>, roster: seq<string>): (r: seq<Appointment>)
    ensures forall a :: a in r <==> a in store && a.patientId in roster && a.status == Booked
    ensures forall a :: multiset(r)[a] == if a.patientId in roster && a.status == Booked then multiset(store)[a] else 0
    ensures IsSubsequence(r, store)
  {
    var onRoster := (a: Appointment) => a.patientId in roster && a.status == Booked;
    FilterMembers(store, onRoster);
    FilterIsSubsequence(store, onRoster);
    Filter(store, onRoster)
  }

  /** The booked records of one doctor on one date, in store order. */
  function HeldOn(store: seq<Appointment>, doctorId: string, date: string): (r: seq<Appointment>)
    ensures forall a :: a in r <==> a in store && Holds(a, doctorId, date, a.time)
    ensures forall a :: multiset(r)[a] == if Holds(a, doctorId, date, a.time) then multiset(store)[a] else 0
    ensures IsSubsequence(r, store)
  {
    var held := (a: Appointment) => Holds(a, doctorId, date, a.time);
    FilterMembers(store, held);
    FilterIsSubsequence(store, held);
    Filter(store, held)
  }

  /** The times already taken for a doctor on a date: exactly the times of
      the booked records for that doctor and date. */
  function BookedTimes(store: seq<Appointment>, doctorId: string, date: string): (r: seq<string>)
    ensures forall t :: t in r <==> SlotTaken(store, doctorId, date, t)
  {
    var held := HeldOn(store, doctorId, date);
    var r := seq(|held|, i requires 0 <= i < |held| => held[i].time);
    assert forall t :: t in r <==> SlotTaken(store, doctorId, date, t) by {
      forall t ensures t in r <==> SlotTaken(store, doctorId, date, t) {
        if t in r {
          var i :| 0 <= i < |held| && r[i] == t;
          assert held[i] in store;
        }
        if SlotTaken(store, doctorId, date, t) {
          var k :| 0 <= k < |store| && Holds(store[k], doctorId, date, t);
          assert store[k] in held;
          var i :| 0 <= i < |held| && held[i] == store[k];
          assert r[i] == t;
        }
      }
    }
    r
  }

  /** Restricting a store to some of its records keeps it exclusive. */
  lemma {:induction false} ExclusiveFilter(store: seq<Appointment>, keep: Appointment -> bool)
    requires Exclusive(store)
    ensures Exclusive(Filter(store, keep))
  {
    if store != [] {
      var tail := store[1..];
      assert Exclusive(tail) by {
        forall i, j | 0 <= i < j < |tail| && tail[i].status == Booked && tail[j].status == Booked
          ensures (tail[i].doctorId, tail[i].date, tail[i].time) != (tail[j].doctorId, tail[j].date, tail[j].time)
        {
          assert tail[i] == store[i + 1] && tail[j] == store[j + 1];
        }
      }
      ExclusiveFilter(tail, keep);
      FilterMembers(tail, keep);
      var rest := Filter(tail, keep);
      if keep(store[0]) {
        var r := [store[0]] + rest;
        forall i, j | 0 <= i < j < |r| && r[i].status == Booked && r[j].status == Booked
          ensures (r[i].doctorId, r[i].date, r[i].time) != (r[j].doctorId, r[j].date, r[j].time)
        {
          if i == 0 {
            assert r[j] == rest[j - 1] && rest[j - 1] in tail;
            var k :| 0 <= k < |tail| && tail[k] == rest[j - 1];
            assert store[k + 1] == r[j];
          } else {
            assert r[i] == rest[i - 1] && r[j] == rest[j - 1];
          }
        }
      }
    }
  }

  /** In an exclusive store the booked times of a doctor's day are distinct,
      so the list is a set of time tokens. */
  lemma BookedTimesDistinct(store: seq<Appointment>, doctorId: string, date: string)
    requires Exclusive(store)
    ensures forall i, j :: 0 <= i < j < |BookedTimes(store, doctorId, date)| ==>
      BookedTimes(store, doctorId, date)[i] != BookedTimes(store, doctorId, date)[j]
  {
    var held := (a: Appointment) => Holds(a, doctorId, date, a.time);
    ExclusiveFilter(store, held);
    var h := HeldOn(store, doctorId, date);
    forall i, j | 0 <= i < j < |h| ensures h[i].time != h[j].time {
      assert h[i] in h && h[j] in h;
    }
  }

  // ---------------------------------------------------------------------
  // Booking and cancellation

  /** Index of the first record with this id, or -1 (`findIndex`). */
  function FindIndex(store: seq<Appointment>, id: string): (i: int)
    ensures -1 <= i < |store|
    ensures i == -1 <==> forall k :: 0 <= k < |store| ==> store[k].id != id
    ensures 0 <= i ==> store[i].id == id && forall k :: 0 <= k < i ==> store[k].id != id
  {
    if store == [] then -1
    else if store[0].id == id then 0
    else
      var j := FindIndex(store[1..], id);
      assert forall k :: 1 <= k < |store| ==> store[k] == store[1..][k - 1];
      if j == -1 then -1 else j + 1
  }

  /** `after` is `before` with the status of record `i` set to Cancelled and
      nothing else changed. */
  ghost predicate CancelledAt(before: seq<Appointment>, after: seq<Appointment>, i: int)
  {
    0 <= i < |before| && |after| == |before| &&
    after[i] == before[i].(status := Cancelled) &&
    forall k :: 0 <= k < |before| && k != i ==> after[k] == before[k]
  }

  /** Records are never removed or reordered, `patientId`, `doctorId`, `date`,
      `time`, `reason` and `id` never change, and a status only ever changes
      to Cancelled. */
  ghost predicate Evolves(before: seq<Appointment>, after: seq<Appointment>)
  {
    |before| <= |after| &&
    forall k :: 0 <= k < |before| ==>
      after[k].(status := before[k].status) == before[k] &&
      (after[k].status == before[k].status || after[k].status == Cancelled)
  }

  lemma EvolvesTransitive(a: seq<Appointment>, b: seq<Appointment>, c: seq<Appointment>)
    requires Evolves(a, b) && Evolves(b, c)
    ensures Evolves(a, c)
  {
    forall k | 0 <= k < |a|
      ensures c[k].(status := a[k].status) == a[k]
    {
      assert c[k].(status := b[k].status) == b[k];
    }
  }

  /** Appending a record that takes no held slot keeps the store exclusive. */
  lemma AppendKeepsExclusive(store: seq<Appointment>, a: Appointment)
    requires Exclusive(store)
    requires a.status == Booked ==> !SlotTaken(store, a.doctorId, a.date, a.time)
    ensures Exclusive(store + [a])
  {
    var s := store + [a];
    forall i, j | 0 <= i < j < |s| && s[i].status == Booked && s[j].status == Booked
      ensures (s[i].doctorId, s[i].date, s[i].time) != (s[j].doctorId, s[j].date, s[j].time)
    {
      if j == |store| {
        assert s[i] == store[i] && !Holds(store[i], a.doctorId, a.date, a.time);
      } else {
        assert s[i] == store[i] && s[j] == store[j];
      }
    }
  }

  /** Cancelling a record keeps the store exclusive. */
  lemma CancelKeepsExclusive(before: seq<Appointment>, after: seq<Appointment>, i: int)
    requires Exclusive(before) && CancelledAt(before, after, i)
    ensures Exclusive(after)
  {
    forall j, k | 0 <= j < k < |after| && after[j].status == Booked && after[k].status == Booked
      ensures (after[j].doctorId, after[j].date, after[j].time) != (after[k].doctorId, after[k].date, after[k].time)
    {
      assert j != i && k != i;
      assert after[j] == before[j] && after[k] == before[k];
    }
  }

  /** Cancelling the booked record of a slot frees that slot: it no longer
      shows among the booked times, and a new booking for it succeeds. */
  lemma CancelFreesSlot(before: seq<Appointment>, after: seq<Appointment>, i: int)
    requires Exclusive(before) && CancelledAt(before, after, i) && before[i].status == Booked
    ensures !SlotTaken(after, before[i].doctorId, before[i].date, before[i].time)
    ensures before[i].time !in BookedTimes(after, before[i].doctorId, before[i].date)
  {
    var a := before[i];
    forall k | 0 <= k < |after|
      ensures !Holds(after[k], a.doctorId, a.date, a.time)
    {
      if k != i {
        assert after[k] == before[k];
      }
    }
  }

  /** Cancelling does not change any id, so a second cancellation of the same
      id finds the same record and leaves the store as the first one left it. */
  lemma CancelTwice(s0: seq<Appointment>, id: string)
    requires FindIndex(s0, id) != -1
    ensures var i := FindIndex(s0, id);
            var s1 := s0[i := s0[i].(status := Cancelled)];
            FindIndex(s1, id) == i && s1[i := s1[i].(status := Cancelled)] == s1
  {
    var i := FindIndex(s0, id);
    var s1 := s0[i := s0[i].(status := Cancelled)];
    assert forall k :: 0 <= k < |s1| ==> s1[k].id == s0[k].id;
    var j := FindIndex(s1, id);
    assert j != -1 by { assert s1[i].id == id; }
    assert !(j < i) && !(i < j);
  }

  /** The persisted appointment collection. */
  class AppointmentStore {
    var appointments: seq<Appointment>

    /** Opens the store on what storage holds; an absent or unreadable
        value is read as the empty list. */
    constructor (saved: Option<seq<Appointment>>)
      ensures appointments == if saved.Some? then saved.value else []
    {
      appointments := if saved.Some? then saved.value else [];
    }

    /** Books a slot. `id` stands for the `appt-<clock>` id the source makes
        from the current time. */
    method Book(request: BookingRequest, id: string) returns (r: Result<Appointment, BookingError>)
      modifies this
      ensures r.Err? <==> SlotTaken(old(appointments), request.doctorId, request.date, request.time)
      ensures r.Err? ==> appointments == old(appointments)
      ensures r.Ok? ==>
        r.value == Appointment(id, request.patientId, request.doctorId, request.date,
                               request.time, request.reason, Booked) &&
        appointments == old(appointments) + [r.value]
      ensures Evolves(old(appointments), appointments)
      ensures Exclusive(old(appointments)) ==> Exclusive(appointments)
      ensures IdsUnique(old(appointments)) ==>
        (forall k :: 0 <= k < |old(appointments)| ==> old(appointments)[k].id != id) ==> IdsUnique(appointments)
    {
      var newAppointment := Appointment(id, request.patientId, request.doctorId, request.date,
                                        request.time, request.reason, Booked);
      if SlotTaken(appointments, newAppointment.doctorId, newAppointment.date, newAppointment.time) {
        return Err(SlotUnavailable);
      }
      if Exclusive(appointments) {
        AppendKeepsExclusive(appointments, newAppointment);
      }
      appointments := appointments + [newAppointment];
      r := Ok(newAppointment);
    }

    /** Cancels the first record with this id. The result is true whenever
        the id is present, whatever the record's status was. */
    method Cancel(id: string) returns (found: bool)
      modifies this
      ensures found <==> exists k :: 0 <= k < |old(appointments)| && old(appointments)[k].id == id
      ensures !found ==> appointments == old(appointments)
      ensures found ==> CancelledAt(old(appointments), appointments, FindIndex(old(appointments), id))
      ensures Evolves(old(appointments), appointments)
      ensures Exclusive(old(appointments)) ==> Exclusive(appointments)
      ensures IdsUnique(old(appointments)) ==> IdsUnique(appointments)
    {
      var i := FindIndex(appointments, id);
      if i != -1 {
        ghost var before := appointments;
        appointments := appointments[i := appointments[i].(status := Cancelled)];
        if Exclusive(before) {
          CancelKeepsExclusive(before, appointments, i);
        }
        found := true;
      } else {
        found := false;
      }
    }
  }
}
