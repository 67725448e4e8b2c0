/** The one-on-one sessions page: the viewer's sessions split into upcoming
    and past, the Mark Complete / Cancel buttons, and the schedule form. */
module OneOnOne {
  import opened Base
  import opened Text
  import opened Tables
  import opened Seqs

  const Scheduled := "scheduled"
  const Completed := "completed"
  const Cancelled := "cancelled"

  /** The upcoming test: the session has not started and is still scheduled. */
  predicate IsUpcoming(s: Session, now: Time) {
    s.scheduledAt >= now && s.status == Scheduled
  }

  /** The past test, written on the page as its own condition. */
  predicate IsPast(s: Session, now: Time) {
    s.scheduledAt < now || s.status != Scheduled
  }

  function Upcoming(now: Time): Session -> bool { (s: Session) => IsUpcoming(s, now) }

  function Past(now: Time): Session -> bool { (s: Session) => IsPast(s, now) }

  function Involves(viewer: UserId): Session -> bool {
    (s: Session) => s.mentorId == viewer || s.menteeId == viewer
  }

  function EarlierOrSame(): (Session, Session) -> bool {
    (a: Session, b: Session) => a.scheduledAt <= b.scheduledAt
  }

  /** The fetch: the sessions where the viewer is mentor or mentee. The store
      returns them ordered by `scheduled_at`, ascending. */
  function ViewerSessions(table: seq<Session>, viewer: UserId): (r: seq<Session>)
    ensures forall s :: s in r <==> s in table && (s.mentorId == viewer || s.menteeId == viewer)
  {
    Filter(table, Involves(viewer))
  }

  /** The Upcoming Sessions column. */
  function UpcomingSessions(sessions: seq<Session>, now: Time): (r: seq<Session>)
    ensures forall s :: s in r <==> s in sessions && s.scheduledAt >= now && s.status == Scheduled
    ensures IsSubseq(r, sessions)
  {
    Filter(sessions, Upcoming(now))
  }

  /** The Past Sessions column. */
  function PastSessions(sessions: seq<Session>, now: Time): (r: seq<Session>)
    ensures forall s :: s in r <==> s in sessions && (s.scheduledAt < now || s.status != Scheduled)
    ensures IsSubseq(r, sessions)
  {
    Filter(sessions, Past(now))
  }

  /** Every fetched session lands in exactly one column; nothing is lost
      or shown twice. */
  lemma SessionsSplit(sessions: seq<Session>, now: Time)
    ensures multiset(UpcomingSessions(sessions, now)) + multiset(PastSessions(sessions, now)) == multiset(sessions)
    ensures |UpcomingSessions(sessions, now)| + |PastSessions(sessions, now)| == |sessions|
    ensures forall s :: s in sessions ==> (s in UpcomingSessions(sessions, now) <==> s !in PastSessions(sessions, now))
  {
    FilterSplit(sessions, Upcoming(now), Past(now));
  }

  /** The boundary: a scheduled session that starts exactly now is upcoming,
      and whatever is not scheduled is past, whatever its date. */
  lemma SessionBoundary(sessions: seq<Session>, now: Time, s: Session)
    requires s in sessions
    ensures s.status == Scheduled && s.scheduledAt == now ==> s in UpcomingSessions(sessions, now) && s !in PastSessions(sessions, now)
    ensures s.status == Scheduled && s.scheduledAt == now - 1 ==> s !in UpcomingSessions(sessions, now) && s in PastSessions(sessions, now)
    ensures s.status != Scheduled ==> s !in UpcomingSessions(sessions, now) && s in PastSessions(sessions, now)
  {
  }

  /** Both columns keep the fetch order, so both are ascending by start. */
  lemma SessionColumnsAscending(sessions: seq<Session>, now: Time)
    requires Ordered(sessions, EarlierOrSame())
    ensures Ordered(UpcomingSessions(sessions, now), EarlierOrSame())
    ensures Ordered(PastSessions(sessions, now), EarlierOrSame())
  {
    SubseqOrdered(UpcomingSessions(sessions, now), sessions, EarlierOrSame());
    SubseqOrdered(PastSessions(sessions, now), sessions, EarlierOrSame());
  }

  /** `updateSessionStatus`: `update({status}).eq('id', sessionId)`. Only the
      status of the rows with that id changes; the current status is not
      consulted. */
  function UpdateSessionStatus(sessions: seq<Session>, id: RowId, status: string): (r: seq<Session>)
    ensures |r| == |sessions|
    ensures forall i :: 0 <= i < |r| && sessions[i].id != id ==> r[i] == sessions[i]
    ensures forall i :: 0 <= i < |r| && sessions[i].id == id ==> r[i].status == status && r[i].(status := sessions[i].status) == sessions[i]
  {
    seq(|sessions|, i requires 0 <= i < |sessions| =>
      if sessions[i].id == id then sessions[i].(status := status) else sessions[i])
  }

  function OtherThan(id: RowId): Session -> bool { (s: Session) => s.id != id }

  /** Moving a session to any status other than "scheduled" takes exactly
      that session out of the Upcoming column and leaves the rest of the
      column as it was. */
  lemma {:induction false} UpdateLeavesUpcoming(sessions: seq<Session>, now: Time, id: RowId, status: string)
    requires status != Scheduled
    ensures UpcomingSessions(UpdateSessionStatus(sessions, id, status), now)
         == Filter(UpcomingSessions(sessions, now), OtherThan(id))
  {
    if |sessions| > 0 {
      var after := UpdateSessionStatus(sessions, id, status);
      assert after[1..] == UpdateSessionStatus(sessions[1..], id, status);
      UpdateLeavesUpcoming(sessions[1..], now, id, status);
      var rest := Filter(sessions[1..], Upcoming(now));
      if IsUpcoming(sessions[0], now) {
        assert ([sessions[0]] + rest)[1..] == rest;
      }
    }
  }

  /** Setting the same status twice is the same as setting it once. */
  lemma UpdateSessionStatusIdempotent(sessions: seq<Session>, id: RowId, status: string)
    ensures UpdateSessionStatus(UpdateSessionStatus(sessions, id, status), id, status)
         == UpdateSessionStatus(sessions, id, status)
  {
  }

  /** The two buttons on an upcoming session card. */
  datatype SessionAction = MarkComplete | Cancel

  function ActionStatus(a: SessionAction): string {
    match a
    case MarkComplete => Completed
    case Cancel => Cancelled
  }

  /** The buttons a card offers: both on upcoming cards, none on past ones. */
  function OfferedActions(s: Session, now: Time): set<SessionAction> {
    if IsUpcoming(s, now) then {MarkComplete, Cancel} else {}
  }

  /** A button is only offered on an upcoming session, it writes "completed"
      or "cancelled", and pressing it moves the session to the Past column. */
  lemma OfferedActionMovesToPast(sessions: seq<Session>, now: Time, s: Session, a: SessionAction)
    requires s in sessions
    requires a in OfferedActions(s, now)
    ensures s in UpcomingSessions(sessions, now)
    ensures ActionStatus(a) == Completed || ActionStatus(a) == Cancelled
    ensures forall t :: t in UpdateSessionStatus(sessions, s.id, ActionStatus(a)) && t.id == s.id
                        ==> t in PastSessions(UpdateSessionStatus(sessions, s.id, ActionStatus(a)), now)
  {
  }

  /** The schedule dialog's state. The date input is `None` while empty. */
  datatype SessionForm = SessionForm(
    title: string,
    description: string,
    scheduledAt: Option<Time>,
    durationMinutes: Option<int>,
    meetingLink: string,
    menteeId: UserId)

  /** The dialog's initial state, also restored after a successful insert. */
  const InitialSessionForm := SessionForm("", "", None, Some(60), "", "")

  /** The dialog's inputs: title, description, date, duration, link. The
      duration input stores `parseInt` of what was typed. No input sets the
      mentee. */
  datatype SessionFormEdit =
    | SetTitle(title: string)
    | SetDescription(description: string)
    | SetScheduledAt(at: Option<Time>)
    | SetDuration(typed: string)
    | SetMeetingLink(link: string)

  function EditSessionForm(f: SessionForm, e: SessionFormEdit): (g: SessionForm)
    ensures g.menteeId == f.menteeId
  {
    match e
    case SetTitle(t) => f.(title := t)
    case SetDescription(d) => f.(description := d)
    case SetScheduledAt(at) => f.(scheduledAt := at)
    case SetDuration(typed) => f.(durationMinutes := ParseInt(typed))
    case SetMeetingLink(l) => f.(meetingLink := l)
  }

  function EditAll(f: SessionForm, edits: seq<SessionFormEdit>): SessionForm
    decreases |edits|
  {
    if |edits| == 0 then f else EditAll(EditSessionForm(f, edits[0]), edits[1..])
  }

  /** `scheduleSession`: with no user nothing is inserted; an empty date
      makes `toISOString` throw, so nothing is inserted either; otherwise the
      whole form is sent with the viewer as mentor and no status. */
  function ScheduleSession(viewer: Viewer, f: SessionForm): (r: Result<SessionInsert>)
    ensures viewer.None? ==> r == Err(AuthRequired)
    ensures viewer.Some? && f.scheduledAt.None? ==> r == Err(InvalidDate)
    ensures r.Ok? <==> viewer.Some? && f.scheduledAt.Some?
    ensures r.Ok? ==> r.value.mentorId == viewer.value && r.value.menteeId == f.menteeId
                      && r.value.scheduledAt == f.scheduledAt.value && r.value.status.None?
                      && r.value.title == f.title && r.value.durationMinutes == f.durationMinutes
                      && r.value.description == Some(f.description) && r.value.meetingLink == Some(f.meetingLink)
  {
    if viewer.None? then Err(AuthRequired)
    else if f.scheduledAt.None? then Err(InvalidDate)
    else Ok(SessionInsert(viewer.value, f.menteeId, f.title, Some(f.description), f.scheduledAt.value,
                          f.durationMinutes, Some(f.meetingLink), None))
  }

  /** Whatever the user types into the dialog, the mentee stays the empty
      string the form started with, so every session the page inserts names
      '' as its mentee. */
  lemma {:induction false} ScheduledMenteeIsEmpty(viewer: Viewer, edits: seq<SessionFormEdit>)
    ensures EditAll(InitialSessionForm, edits).menteeId == ""
    ensures ScheduleSession(viewer, EditAll(InitialSessionForm, edits)).Ok? ==>
              ScheduleSession(viewer, EditAll(InitialSessionForm, edits)).value.menteeId == ""
  {
    EditsKeepMentee(InitialSessionForm, edits);
  }

  lemma {:induction false} EditsKeepMentee(f: SessionForm, edits: seq<SessionFormEdit>)
    ensures EditAll(f, edits).menteeId == f.menteeId
    decreases |edits|
  {
    if |edits| > 0 {
      EditsKeepMentee(EditSessionForm(f, edits[0]), edits[1..]);
    }
  }
}
