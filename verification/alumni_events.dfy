/** The alumni events page: the type filter, the upcoming/past split,
    registration on the `event_attendees` join table, and the create form. */
module AlumniEvents {
  import opened Base
  import opened Text
  import opened Tables
  import opened Seqs

  /** The type filter's "show everything" value. */
  const AllTypes := "all"

  function IsActive(): AlumniEvent -> bool { (e: AlumniEvent) => e.isActive == Some(true) }

  function OfType(filterType: string): AlumniEvent -> bool {
    (e: AlumniEvent) => filterType == AllTypes || e.eventType == filterType
  }

  function FromNow(now: Time): AlumniEvent -> bool { (e: AlumniEvent) => e.eventDate >= now }

  function BeforeNow(now: Time): AlumniEvent -> bool { (e: AlumniEvent) => e.eventDate < now }

  function EarlierOrSame(): (AlumniEvent, AlumniEvent) -> bool {
    (a: AlumniEvent, b: AlumniEvent) => a.eventDate <= b.eventDate
  }

  /** The fetch: active events only (`is_active = true`; null is not true).
      The store returns them ordered by `event_date`, ascending. */
  function ActiveEvents(table: seq<AlumniEvent>): (r: seq<AlumniEvent>)
    ensures forall e :: e in r <==> e in table && e.isActive == Some(true)
    ensures IsSubseq(r, table)
  {
    Filter(table, IsActive())
  }

  /** `filteredEvents`: "all" keeps every event, any other value keeps the
      events of exactly that type. */
  function FilterEvents(events: seq<AlumniEvent>, filterType: string): (r: seq<AlumniEvent>)
    ensures filterType == AllTypes ==> r == events
    ensures filterType != AllTypes ==> forall e :: e in r <==> e in events && e.eventType == filterType
    ensures IsSubseq(r, events)
  {
    if filterType == AllTypes then FilterAll(events, OfType(filterType)); Filter(events, OfType(filterType))
    else Filter(events, OfType(filterType))
  }

  /** `upcomingEvents`: events dated now or later. */
  function UpcomingEvents(filtered: seq<AlumniEvent>, now: Time): (r: seq<AlumniEvent>)
    ensures forall e :: e in r <==> e in filtered && e.eventDate >= now
    ensures IsSubseq(r, filtered)
  {
    Filter(filtered, FromNow(now))
  }

  /** `pastEvents`: events dated strictly before now. */
  function PastEvents(filtered: seq<AlumniEvent>, now: Time): (r: seq<AlumniEvent>)
    ensures forall e :: e in r <==> e in filtered && e.eventDate < now
    ensures IsSubseq(r, filtered)
  {
    Filter(filtered, BeforeNow(now))
  }

  /** Upcoming and past partition the filtered list: disjoint, and together
      every filtered event exactly once. An event dated exactly now is
      upcoming. */
  lemma EventsSplit(filtered: seq<AlumniEvent>, now: Time)
    ensures multiset(UpcomingEvents(filtered, now)) + multiset(PastEvents(filtered, now)) == multiset(filtered)
    ensures forall e :: e in filtered ==> (e in UpcomingEvents(filtered, now) <==> e !in PastEvents(filtered, now))
    ensures forall e :: e in filtered && e.eventDate == now ==> e in UpcomingEvents(filtered, now)
  {
    FilterSplit(filtered, FromNow(now), BeforeNow(now));
  }

  /** Both lists keep the fetch order, ascending by date, whatever the type
      filter. */
  lemma EventListsAscending(table: seq<AlumniEvent>, filterType: string, now: Time)
    requires Ordered(ActiveEvents(table), EarlierOrSame())
    ensures Ordered(UpcomingEvents(FilterEvents(ActiveEvents(table), filterType), now), EarlierOrSame())
    ensures Ordered(PastEvents(FilterEvents(ActiveEvents(table), filterType), now), EarlierOrSame())
  {
    var fetched := ActiveEvents(table);
    var filtered := FilterEvents(fetched, filterType);
    SubseqOrdered(filtered, fetched, EarlierOrSame());
    SubseqOrdered(UpcomingEvents(filtered, now), filtered, EarlierOrSame());
    SubseqOrdered(PastEvents(filtered, now), filtered, EarlierOrSame());
  }

  /** The viewer holds at least one registration row for the event. */
  predicate IsRegistered(attendees: seq<EventAttendee>, user: UserId, eventId: RowId) {
    exists a :: a in attendees && a.userId == user && a.eventId == eventId
  }

  function Registration(eventId: RowId, user: UserId): EventAttendee -> bool {
    (a: EventAttendee) => a.eventId == eventId && a.userId == user
  }

  function NotRegistration(eventId: RowId, user: UserId): EventAttendee -> bool {
    (a: EventAttendee) => !(a.eventId == eventId && a.userId == user)
  }

  /** How many rows register `user` for `eventId`. */
  function Registrations(attendees: seq<EventAttendee>, eventId: RowId, user: UserId): nat {
    CountIf(attendees, Registration(eventId, user))
  }

  /** `fetchRegisteredEvents`: the event ids of the viewer's rows, which the
      page uses to choose between Register and Unregister. */
  function RegisteredEventIds(attendees: seq<EventAttendee>, user: UserId): (r: seq<RowId>)
    ensures forall e :: e in r <==> IsRegistered(attendees, user, e)
  {
    var mine := Filter(attendees, (a: EventAttendee) => a.userId == user);
    var r := seq(|mine|, i requires 0 <= i < |mine| => mine[i].eventId);
    assert forall e :: IsRegistered(attendees, user, e) ==> e in r by {
      forall e | IsRegistered(attendees, user, e) ensures e in r {
        var a :| a in attendees && a.userId == user && a.eventId == e;
        assert a in mine;
        var i :| 0 <= i < |mine| && mine[i] == a;
        assert r[i] == e;
      }
    }
    assert forall e :: e in r ==> IsRegistered(attendees, user, e) by {
      forall e | e in r ensures IsRegistered(attendees, user, e) {
        var i :| 0 <= i < |r| && r[i] == e;
        assert mine[i] in mine;
      }
    }
    r
  }

  /** `registerForEvent`: with no user nothing changes; otherwise one
      (event, viewer) row is added, with no duplicate check and no
      capacity check. */
  function Register(attendees: seq<EventAttendee>, viewer: Viewer, eventId: RowId, newId: RowId, at: Time): (r: seq<EventAttendee>)
    ensures viewer.None? ==> r == attendees
    ensures viewer.Some? ==> multiset(r) == multiset(attendees) + multiset{EventAttendee(newId, eventId, viewer.value, at)}
    ensures viewer.Some? ==> IsRegistered(r, viewer.value, eventId)
    ensures viewer.Some? ==> Registrations(r, eventId, viewer.value) == Registrations(attendees, eventId, viewer.value) + 1
  {
    if viewer.None? then attendees
    else
      var row := EventAttendee(newId, eventId, viewer.value, at);
      FilterSnoc(attendees, row, Registration(eventId, viewer.value));
      assert row in attendees + [row];
      attendees + [row]
  }

  /** `unregisterFromEvent`: deletes every row matching both the event and
      the viewer; other users' rows and the viewer's other events stay. With
      no user the delete matches no row. */
  function Unregister(attendees: seq<EventAttendee>, viewer: Viewer, eventId: RowId): (r: seq<EventAttendee>)
    ensures viewer.None? ==> r == attendees
    ensures viewer.Some? ==> forall a :: a in r <==> a in attendees && !(a.eventId == eventId && a.userId == viewer.value)
    ensures viewer.Some? ==> !IsRegistered(r, viewer.value, eventId)
    ensures IsSubseq(r, attendees)
  {
    if viewer.None? then FilterAll(attendees, (a: EventAttendee) => true); attendees
    else Filter(attendees, NotRegistration(eventId, viewer.value))
  }

  /** Registering and then unregistering leaves the table as unregistering
      alone would: the viewer is no longer registered for the event, and
      every other row is back as it was. */
  lemma {:induction false} RegisterThenUnregister(attendees: seq<EventAttendee>, viewer: UserId, eventId: RowId, newId: RowId, at: Time)
    ensures Unregister(Register(attendees, Some(viewer), eventId, newId, at), Some(viewer), eventId)
         == Unregister(attendees, Some(viewer), eventId)
    ensures !IsRegistered(Unregister(Register(attendees, Some(viewer), eventId, newId, at), Some(viewer), eventId), viewer, eventId)
  {
    var row := EventAttendee(newId, eventId, viewer, at);
    FilterSnoc(attendees, row, NotRegistration(eventId, viewer));
  }

  /** Unregistering and then registering again leaves exactly one row for
      the pair, however many there were before. */
  lemma {:induction false} UnregisterThenRegister(attendees: seq<EventAttendee>, viewer: UserId, eventId: RowId, newId: RowId, at: Time)
    ensures Registrations(Register(Unregister(attendees, Some(viewer), eventId), Some(viewer), eventId, newId, at), eventId, viewer) == 1
  {
    var cleared := Unregister(attendees, Some(viewer), eventId);
    NoneLeft(cleared, eventId, viewer);
  }

  lemma {:induction false} NoneLeft(attendees: seq<EventAttendee>, eventId: RowId, user: UserId)
    requires !IsRegistered(attendees, user, eventId)
    ensures Registrations(attendees, eventId, user) == 0
  {
    var r := Filter(attendees, Registration(eventId, user));
    assert forall i :: 0 <= i < |r| ==> r[i] in r;
  }

  /** Registering twice gives two rows for the same pair: nothing on the
      page prevents a duplicate registration. */
  lemma RegisterTwiceDuplicates(attendees: seq<EventAttendee>, viewer: UserId, eventId: RowId, id1: RowId, id2: RowId, at: Time)
    ensures Registrations(Register(Register(attendees, Some(viewer), eventId, id1, at), Some(viewer), eventId, id2, at), eventId, viewer)
         == Registrations(attendees, eventId, viewer) + 2
  {
  }

  /** The create dialog's state; the date input is `None` while empty and
      the capacity input holds the text typed into it. */
  datatype EventForm = EventForm(
    title: string,
    description: string,
    eventDate: Option<Time>,
    location: string,
    eventType: string,
    maxAttendees: string,
    registrationUrl: string)

  const InitialEventForm := EventForm("", "", None, "", "networking", "", "")

  /** `createEvent`: an empty capacity is sent as null, any other text as
      `parseInt` of it; the creator is the viewer. */
  function CreateEvent(viewer: Viewer, f: EventForm): (r: Result<AlumniEventInsert>)
    ensures viewer.None? ==> r == Err(AuthRequired)
    ensures r.Ok? <==> viewer.Some? && f.eventDate.Some?
    ensures r.Ok? ==> r.value.createdBy == viewer.value && r.value.eventDate == f.eventDate.value
                      && r.value.eventType == f.eventType && r.value.title == f.title
                      && r.value.description == f.description && r.value.location == Some(f.location)
                      && r.value.registrationUrl == Some(f.registrationUrl)
                      && r.value.maxAttendees == (if f.maxAttendees == "" then None else ParseInt(f.maxAttendees))
  {
    if viewer.None? then Err(AuthRequired)
    else if f.eventDate.None? then Err(InvalidDate)
    else Ok(AlumniEventInsert(viewer.value, f.title, f.description, f.eventDate.value, f.eventType,
                              Some(f.location), if f.maxAttendees == "" then None else ParseInt(f.maxAttendees),
                              Some(f.registrationUrl)))
  }

  /** The capacity mapping: left empty it becomes null; a count typed in
      decimal becomes that number, and whatever follows the digits, such as
      an exponent, is dropped. The minus-sign and fraction cases state what
      `parseInt` makes of such text; on the page the input's `min="1"` and
      default step stop the form from submitting it. */
  lemma CreateEventCapacity(viewer: UserId, f: EventForm, n: nat, rest: string)
    requires f.eventDate.Some?
    ensures f.maxAttendees == "" ==> CreateEvent(Some(viewer), f).value.maxAttendees == None
    ensures f.maxAttendees == ShowNat(n) ==> CreateEvent(Some(viewer), f).value.maxAttendees == Some(n as int)
    ensures EndsDecimal(rest) && f.maxAttendees == ShowNat(n) + rest
            ==> CreateEvent(Some(viewer), f).value.maxAttendees == Some(n as int)
    ensures EndsDecimal(rest) && f.maxAttendees == "-" + (ShowNat(n) + rest)
            ==> CreateEvent(Some(viewer), f).value.maxAttendees == Some(-(n as int))
  {
    ParseIntShowNat(n);
    if EndsDecimal(rest) {
      CapacityOfDecimalPrefix(n, rest);
    }
  }

  /** The decimal text of a count, signed or not, with a fraction or an
      exponent after it, parses to the signed whole count. */
  lemma {:induction false} CapacityOfDecimalPrefix(n: nat, rest: string)
    requires EndsDecimal(rest)
    ensures ParseInt(ShowNat(n) + rest) == Some(n as int)
    ensures ParseInt("-" + (ShowNat(n) + rest)) == Some(-(n as int))
  {
    var s := ShowNat(n) + rest;
    assert ParseUnsigned(s) == Some(n as int) by {
      DigitsValueOfShowNat(n);
      ParseUnsignedOfDecimalPrefix(ShowNat(n), rest);
    }
    assert ParseInt(s) == Some(n as int) by {
      DigitsValueOfShowNat(n);
      ParseIntOfDecimalPrefix(ShowNat(n), rest);
    }
    ParseIntNegated(s, n);
  }
}
