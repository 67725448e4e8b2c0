/** Row and insert shapes of the hosted store's public tables.
    Nullable columns are `Option`s; in an insert shape `None` also stands
    for a column the insert leaves out, which the store then fills with its
    column default. Timestamps are `Time`s. */
module Tables {
  import opened Base

  /** A row of `alumni_events`. */
  datatype AlumniEvent = AlumniEvent(
    id: RowId,
    title: string,
    description: string,
    eventDate: Time,
    eventType: string,
    location: Option<string>,
    maxAttendees: Option<int>,
    registrationUrl: Option<string>,
    imageUrl: Option<string>,
    isActive: Option<bool>,
    createdBy: UserId,
    createdAt: Time,
    updatedAt: Time)

  /** What a client sends to insert into `alumni_events`. */
  datatype AlumniEventInsert = AlumniEventInsert(
    createdBy: UserId,
    title: string,
    description: string,
    eventDate: Time,
    eventType: string,
    location: Option<string>,
    maxAttendees: Option<int>,
    registrationUrl: Option<string>)

  /** A row of `event_attendees`: a join record between an event and a
      user. No uniqueness of the (event, user) pair is declared. */
  datatype EventAttendee = EventAttendee(
    id: RowId,
    eventId: RowId,
    userId: UserId,
    registeredAt: Time)

  /** A row of `job_opportunities`. */
  datatype JobOpportunity = JobOpportunity(
    id: RowId,
    title: string,
    description: string,
    company: string,
    location: Option<string>,
    jobType: string,
    salaryRange: Option<string>,
    requirements: Option<string>,
    applicationUrl: Option<string>,
    expiresAt: Option<Time>,
    isActive: Option<bool>,
    postedBy: UserId,
    createdAt: Time,
    updatedAt: Time)

  /** What a client sends to insert into `job_opportunities`. */
  datatype JobInsert = JobInsert(
    postedBy: UserId,
    title: string,
    description: string,
    company: string,
    location: Option<string>,
    jobType: string,
    salaryRange: Option<string>,
    requirements: Option<string>,
    applicationUrl: Option<string>,
    expiresAt: Option<Time>)

  /** A row of `mentorships`. */
  datatype Mentorship = Mentorship(
    id: RowId,
    mentorId: UserId,
    menteeId: UserId,
    message: Option<string>,
    status: string,
    createdAt: Time,
    updatedAt: Time)

  /** What a client sends to insert into `mentorships`; `status` may be left
      out. */
  datatype MentorshipInsert = MentorshipInsert(
    mentorId: UserId,
    menteeId: UserId,
    message: Option<string>,
    status: Option<string>)

  /** A row of `one_on_one_sessions`. */
  datatype Session = Session(
    id: RowId,
    mentorId: UserId,
    menteeId: UserId,
    title: string,
    description: Option<string>,
    scheduledAt: Time,
    durationMinutes: Option<int>,
    meetingLink: Option<string>,
    status: string,
    createdAt: Time,
    updatedAt: Time)

  /** What a client sends to insert into `one_on_one_sessions`; `status`
      may be left out. */
  datatype SessionInsert = SessionInsert(
    mentorId: UserId,
    menteeId: UserId,
    title: string,
    description: Option<string>,
    scheduledAt: Time,
    durationMinutes: Option<int>,
    meetingLink: Option<string>,
    status: Option<string>)

  /** A row of `profiles`. `isMentor` and `isAvailableForMentorship` are
      independent nullable flags. */
  datatype Profile = Profile(
    id: RowId,
    userId: UserId,
    fullName: Option<string>,
    bio: Option<string>,
    avatarUrl: Option<string>,
    email: Option<string>,
    currentCompany: Option<string>,
    currentPosition: Option<string>,
    degree: Option<string>,
    location: Option<string>,
    major: Option<string>,
    graduationYear: Option<int>,
    githubUrl: Option<string>,
    linkedinUrl: Option<string>,
    twitterUrl: Option<string>,
    isMentor: Option<bool>,
    isAvailableForMentorship: Option<bool>,
    createdAt: Time,
    updatedAt: Time)

  /** A row of `referral_requests`: company, position and requester are
      always present, the referee may be null. */
  datatype ReferralRequest = ReferralRequest(
    id: RowId,
    requesterId: UserId,
    refereeId: Option<UserId>,
    company: string,
    position: string,
    message: Option<string>,
    status: string,
    createdAt: Time,
    updatedAt: Time)

  /** What a client sends to insert into `referral_requests`; `status` and
      `refereeId` may be left out. */
  datatype ReferralInsert = ReferralInsert(
    requesterId: UserId,
    company: string,
    position: string,
    message: Option<string>,
    refereeId: Option<UserId>,
    status: Option<string>)

  /** The store's handling of an insert into `mentorships`: it assigns the
      key and timestamps, and a left-out `status` takes the column default
      `defaultStatus` (the default itself is configured in the store). */
  function StoreMentorship(ins: MentorshipInsert, id: RowId, at: Time, defaultStatus: string): (row: Mentorship)
    ensures row.mentorId == ins.mentorId && row.menteeId == ins.menteeId && row.message == ins.message
    ensures ins.status.None? ==> row.status == defaultStatus
    ensures ins.status.Some? ==> row.status == ins.status.value
    ensures row.id == id
  {
    Mentorship(id, ins.mentorId, ins.menteeId, ins.message, ins.status.GetOr(defaultStatus), at, at)
  }

  /** The store's handling of an insert into `one_on_one_sessions`. */
  function StoreSession(ins: SessionInsert, id: RowId, at: Time, defaultStatus: string): (row: Session)
    ensures row.mentorId == ins.mentorId && row.menteeId == ins.menteeId
    ensures row.title == ins.title && row.scheduledAt == ins.scheduledAt
    ensures row.description == ins.description && row.durationMinutes == ins.durationMinutes
    ensures row.meetingLink == ins.meetingLink
    ensures ins.status.None? ==> row.status == defaultStatus
    ensures ins.status.Some? ==> row.status == ins.status.value
    ensures row.id == id
  {
    Session(id, ins.mentorId, ins.menteeId, ins.title, ins.description, ins.scheduledAt,
            ins.durationMinutes, ins.meetingLink, ins.status.GetOr(defaultStatus), at, at)
  }

  /** The store's handling of an insert into `referral_requests`. */
  function StoreReferral(ins: ReferralInsert, id: RowId, at: Time, defaultStatus: string): (row: ReferralRequest)
    ensures row.requesterId == ins.requesterId && row.refereeId == ins.refereeId
    ensures row.company == ins.company && row.position == ins.position && row.message == ins.message
    ensures ins.status.None? ==> row.status == defaultStatus
    ensures ins.status.Some? ==> row.status == ins.status.value
    ensures row.id == id
  {
    ReferralRequest(id, ins.requesterId, ins.refereeId, ins.company, ins.position, ins.message,
                    ins.status.GetOr(defaultStatus), at, at)
  }
}
