# GradMate-X alumni app: a Dafny model of its page logic

GradMate-X is a React front end over a hosted Postgres store. Users are
graduates and students. They schedule one-on-one mentoring sessions, sign up
for alumni events, ask for and offer job referrals, find and request mentors,
post and search jobs, keep a mentor profile, write success stories and read
them. Almost everything the pages do is remote reads and writes. The pieces
modelled here are the pure logic inside them:

- **Row shapes.** One datatype per table row and per insert payload, with
  `Option` for nullable columns (module `Tables`). Module `Tables` also models
  how the store fills a column default when an insert leaves `status` out.
- **List projections.** Each is a filter over a fetched `seq` of rows, with
  the viewer, the reference time `now`, the type filter and the search term
  passed as parameters:
  - the upcoming/past split of sessions and events;
  - the type filters on events and jobs;
  - the case-insensitive substring searches;
  - the open and mine referral lists;
  - the mentor directory.
- **Single-row transitions.** Each is a pure update of a `seq` of rows:
  - session status update;
  - the referral offer;
  - event register and unregister;
  - mentorship request.
- **Form and state helpers:**
  - the schedule, event, job and referral dialogs;
  - the mentor profile form and its defaulting from a stored row;
  - the story wizard's tag editor and steps;
  - the like and bookmark toggles and the most-popular sort;
  - the header's initials.

The JavaScript built-ins the pages rely on are modelled in module `Text`:
- `toLowerCase`/`toUpperCase`, on ASCII;
- `includes`;
- `trim`, over the ECMAScript whitespace set;
- `parseInt`. This covers leading whitespace, sign, a `0x` prefix and the
  longest digit prefix. NaN is `None`, because it is stored as null.

Module `Seqs` holds the generic filter and the subsequence, ordering and
distinctness facts the pages share.

Times are integers. The store's `order(...)` is not modelled. Where an ordering
property is stated, the order of the fetched list is a precondition.

Files, one module each: `base.dfy` (`Base`), `text.dfy` (`Text`),
`seqs.dfy` (`Seqs`), `tables.dfy` (`Tables`), `one_on_one.dfy` (`OneOnOne`),
`alumni_events.dfy` (`AlumniEvents`), `get_referrals.dfy` (`GetReferrals`),
`find_mentor.dfy` (`FindMentor`), `career_opportunities.dfy`
(`CareerOpportunities`), `become_mentor.dfy` (`BecomeMentor`),
`share_your_story.dfy` (`ShareYourStory`), `success_stories.dfy`
(`SuccessStories`), `header.dfy` (`Header`).

The model states what the code does, including the checks it does not make:
- the referral offer is an unconditional overwrite, not a conditional claim;
- registering for an event checks neither capacity nor duplicates;
- a session's status can be changed from any status.

## Model

| member | source | states |
|---|---|---|
| Tables.StoreMentorship | src/integrations/supabase/types.ts:178-186 | a mentorship insert may omit `status`; the stored row then has the column default and keeps mentor, mentee and message |
| Tables.StoreSession | src/integrations/supabase/types.ts:227-239 | a session insert may omit `status`; the stored row then has the default and keeps every sent column |
| Tables.StoreReferral | src/integrations/supabase/types.ts:348-358 | a referral insert may omit `status` and `referee_id`; the stored row keeps requester, company, position, message and referee |
| Text.ContainsIffOccurs | src/pages/CareerOpportunities.tsx:130-132 | `includes` holds exactly when the needle occurs at some position of the haystack |
| Text.MatchIgnoresTermCase | src/pages/CareerOpportunities.tsx:130-132 | lower-casing both sides makes a match independent of the term's letter case; the empty term matches everything |
| Text.LowerForgetsCase | src/pages/CareerOpportunities.tsx:130-132 | lower-casing is idempotent and erases a prior upper-casing |
| Text.TrimEmptyIffBlank | src/pages/ShareYourStory.tsx:45 | a trimmed string is empty exactly when the original is all whitespace |
| Text.TrimIdempotent | src/pages/ShareYourStory.tsx:48 | trimming twice is trimming once |
| Text.TrimStartDropsWhitespace | src/pages/ShareYourStory.tsx:45 | the part `trim` removes at the front is whitespace only |
| Text.TrimEndDropsWhitespace | src/pages/ShareYourStory.tsx:45 | the part `trim` removes at the back is whitespace only |
| Text.LeadingDigits | src/pages/OneOnOne.tsx:258 | `parseInt` reads the longest prefix of digits in the radix, and the next character is not one |
| Text.ParseIntOfDecimal | src/pages/OneOnOne.tsx:258 | `parseInt` of a decimal numeral is its value |
| Text.ParseIntNegated | src/pages/OneOnOne.tsx:258 | a leading minus sign negates what the rest of the text parses to |
| Text.ParseIntShowNat | src/pages/AlumniEvents.tsx:133 | `parseInt` reads back the decimal text of any natural number |
| Text.DigitsValueOfShowNat | src/pages/AlumniEvents.tsx:133 | the decimal text of n is a numeral whose value is n |
| Text.LeadingDigitsStops | src/pages/AlumniEvents.tsx:133 | the digit run `parseInt` reads ends at the first character that is not a digit |
| Text.ParseUnsignedOfDecimalPrefix | src/pages/AlumniEvents.tsx:133 | after the sign, a decimal numeral followed by a non-digit other than `x` reads as the numeral's value |
| Text.ParseIntOfDecimalPrefix | src/pages/AlumniEvents.tsx:133 | `parseInt` ignores whatever follows a decimal numeral, such as a decimal point and fraction |
| OneOnOne.ViewerSessions | src/pages/OneOnOne.tsx:76-96 | the fetch keeps exactly the sessions where the viewer is mentor or mentee |
| OneOnOne.UpcomingSessions | src/pages/OneOnOne.tsx:179-183 | upcoming is exactly the scheduled sessions at or after now, in fetch order |
| OneOnOne.PastSessions | src/pages/OneOnOne.tsx:185-189 | past is exactly the sessions before now or not scheduled, in fetch order |
| OneOnOne.SessionsSplit | src/pages/OneOnOne.tsx:179-189 | every session lands in exactly one list; together the lists are a rearrangement of the fetch |
| OneOnOne.SessionBoundary | src/pages/OneOnOne.tsx:182 | a scheduled session at exactly now is upcoming, one a moment earlier is past, and any other status is past |
| OneOnOne.SessionColumnsAscending | src/pages/OneOnOne.tsx:179-189 | both lists keep the fetch's ascending `scheduled_at` order |
| OneOnOne.UpdateSessionStatus | src/pages/OneOnOne.tsx:145-150 | only the status of the rows with the id changes; the current status is not checked |
| OneOnOne.UpdateLeavesUpcoming | src/pages/OneOnOne.tsx:145-150 | after completing or cancelling, the upcoming list is the old one without that session, in order |
| OneOnOne.UpdateSessionStatusIdempotent | src/pages/OneOnOne.tsx:145-150 | setting the same status twice is setting it once |
| OneOnOne.OfferedActionMovesToPast | src/pages/OneOnOne.tsx:339-352 | Mark Complete and Cancel show only on upcoming sessions, write "completed" or "cancelled", and move the session to past |
| OneOnOne.EditSessionForm | src/pages/OneOnOne.tsx:223-272 | no input of the schedule dialog writes the mentee |
| OneOnOne.ScheduleSession | src/pages/OneOnOne.tsx:98-117 | no user: no insert; no date: no insert; otherwise the viewer is mentor and the form's fields are sent without a status |
| OneOnOne.ScheduledMenteeIsEmpty | src/pages/OneOnOne.tsx:35-42 | whatever is typed, every scheduled session names the empty string as mentee |
| AlumniEvents.ActiveEvents | src/pages/AlumniEvents.tsx:79-86 | the fetch keeps exactly the active events, in order |
| AlumniEvents.FilterEvents | src/pages/AlumniEvents.tsx:237-240 | "all" keeps every event; any other value keeps exactly the events of that type |
| AlumniEvents.UpcomingEvents | src/pages/AlumniEvents.tsx:242-244 | upcoming is exactly the events at or after now, in order |
| AlumniEvents.PastEvents | src/pages/AlumniEvents.tsx:246-248 | past is exactly the events before now, in order |
| AlumniEvents.EventsSplit | src/pages/AlumniEvents.tsx:242-248 | upcoming and past partition the filtered list, and an event at exactly now is upcoming |
| AlumniEvents.EventListsAscending | src/pages/AlumniEvents.tsx:84-85 | both lists keep the fetch's ascending date order |
| AlumniEvents.RegisteredEventIds | src/pages/AlumniEvents.tsx:101-113 | the registered ids are exactly the events with an attendee row for the user |
| AlumniEvents.Register | src/pages/AlumniEvents.tsx:164-180 | no user: nothing; otherwise one more (event, viewer) row, with no duplicate or capacity check |
| AlumniEvents.Unregister | src/pages/AlumniEvents.tsx:200-206 | every row of the viewer for the event goes; all other rows stay, in order |
| AlumniEvents.RegisterThenUnregister | src/pages/AlumniEvents.tsx:164-206 | register then unregister equals unregister alone, and leaves the viewer unregistered |
| AlumniEvents.UnregisterThenRegister | src/pages/AlumniEvents.tsx:164-206 | unregister then register leaves exactly one registration |
| AlumniEvents.NoneLeft | src/pages/AlumniEvents.tsx:101-113 | not registered means no attendee row for the pair |
| AlumniEvents.RegisterTwiceDuplicates | src/pages/AlumniEvents.tsx:164-180 | two registrations give two rows for the same pair |
| AlumniEvents.CreateEvent | src/pages/AlumniEvents.tsx:115-134 | no user or no date: no insert; otherwise the viewer is the creator, every form field is sent, and the capacity is null when empty and `parseInt` of the text otherwise |
| AlumniEvents.CreateEventCapacity | src/pages/AlumniEvents.tsx:133 | an empty capacity is sent as null; a natural typed in decimal is sent as its value, and an exponent after the digits is dropped ("1e3" is sent as 1); for a minus sign or a fraction it states what `parseInt` makes of the text, which the input's `min="1"` keeps from being submitted |
| AlumniEvents.CapacityOfDecimalPrefix | src/pages/AlumniEvents.tsx:133 | `parseInt` of a decimal count followed by a fraction or exponent, with or without a minus sign, is the signed whole count |
| GetReferrals.OpenRequests | src/pages/GetReferrals.tsx:48-61 | the open list holds exactly the rows with status "open", in order |
| GetReferrals.MyRequests | src/pages/GetReferrals.tsx:63-69 | the mine list holds exactly the viewer's own requests, in order |
| GetReferrals.FilteredRequests | src/pages/GetReferrals.tsx:179-182 | a request stays iff the term occurs, ignoring case, in company or position; the empty term keeps all, in order |
| GetReferrals.OfferReferral | src/pages/GetReferrals.tsx:124-141 | no user: nothing; otherwise exactly the row with the id gets the viewer as referee and "accepted", unconditionally |
| GetReferrals.OfferButtonGuard | src/pages/GetReferrals.tsx:295 | the button shows only on open requests of others, and after an offer it shows for nobody on that request |
| GetReferrals.OfferLeavesOpenList | src/pages/GetReferrals.tsx:139-150 | after an offer the re-fetched open list is the old one without the request |
| GetReferrals.RepeatOfferOverwrites | src/pages/GetReferrals.tsx:135-141 | a second offer overwrites the first referee |
| GetReferrals.CreateReferralRequest | src/pages/GetReferrals.tsx:80-97 | no user: no insert; otherwise the viewer is the requester, company, position and message are sent as typed, and no referee or status is sent |
| GetReferrals.NewRequestListed | src/pages/GetReferrals.tsx:80-97 | a new request appears in the mine list, and in the open list iff the column default is "open" |
| FindMentor.MentorDirectory | src/pages/FindMentor.tsx:36-42 | the directory holds exactly profiles whose mentor and availability flags are true, null not counting |
| FindMentor.FilteredMentors | src/pages/FindMentor.tsx:93-97 | a mentor stays iff the term occurs, ignoring case, in a non-null name, company or major |
| FindMentor.EmptyTermKeepsNonNull | src/pages/FindMentor.tsx:93-97 | the empty term keeps exactly the mentors with a non-null searched field; all-null profiles are dropped |
| FindMentor.RequestMentorship | src/pages/FindMentor.tsx:58-75 | no user: no insert; otherwise the chosen mentor, the viewer as mentee and the fixed message |
| FindMentor.RequestScenario | src/pages/FindMentor.tsx:58-75 | a listed mentor's request is stored as that row with the default status, and a repeat stores a second row |
| CareerOpportunities.ActiveJobs | src/pages/CareerOpportunities.tsx:56-62 | the fetch keeps exactly the active postings, in order |
| CareerOpportunities.FilteredJobs | src/pages/CareerOpportunities.tsx:128-137 | a posting stays iff the term occurs, ignoring case, in title, company or description, and the type is "all" or matches |
| CareerOpportunities.EverythingByDefault | src/pages/CareerOpportunities.tsx:128-137 | the empty term with "all" keeps every posting, in order |
| CareerOpportunities.TermCaseIrrelevant | src/pages/CareerOpportunities.tsx:130-132 | upper- or lower-casing the term changes nothing |
| CareerOpportunities.SpecificTypeNarrows | src/pages/CareerOpportunities.tsx:134 | a specific type shows an ordered part of what "all" shows |
| CareerOpportunities.FilteredJobsNewestFirst | src/pages/CareerOpportunities.tsx:62 | the filtered list keeps the fetch's newest-first order |
| CareerOpportunities.PostJob | src/pages/CareerOpportunities.tsx:78-96 | no user: no insert; otherwise the viewer is poster, every form field is sent as typed, an empty expiry is null and an unreadable one stops the insert |
| CareerOpportunities.PostJobOutcome | src/pages/CareerOpportunities.tsx:78-96 | whether a post is inserted depends only on the viewer and the expiry; an unreadable non-empty expiry always stops it |
| CareerOpportunities.DefaultPostHasNoExpiry | src/pages/CareerOpportunities.tsx:40-50 | a dialog left at its defaults posts "full-time", empty strings and no expiry |
| BecomeMentor.TextOrEmpty | src/pages/BecomeMentor.tsx:65-70 | a null text column shows as the empty string |
| BecomeMentor.FormFromProfile | src/pages/BecomeMentor.tsx:52-75 | no row keeps the form; null text becomes '', a null or zero year the current year, a null mentor flag no, and a null availability yes |
| BecomeMentor.BlankRowGivesInitialForm | src/pages/BecomeMentor.tsx:34-44 | an all-null row loads as the initial form |
| BecomeMentor.EditMentorForm | src/pages/BecomeMentor.tsx:294-308 | the availability switch acts only while the mentor switch is on |
| BecomeMentor.MentorSwitchKeepsAvailability | src/pages/BecomeMentor.tsx:294-308 | switching mentoring off and on keeps the hidden availability value |
| BecomeMentor.SaveProfile | src/pages/BecomeMentor.tsx:83-94 | no user: nothing sent; otherwise the viewer's id with every field of the form, availability included |
| BecomeMentor.ApplyUpsert | src/pages/BecomeMentor.tsx:89-94 | the upsert overwrites the sent columns and keeps the others, `updated_at` included, since the page does not send it |
| BecomeMentor.SaveThenReload | src/pages/BecomeMentor.tsx:83-105 | saving then reloading gives the form back, save that a missing or zero year becomes the current year |
| BecomeMentor.HiddenAvailabilityIsSaved | src/pages/BecomeMentor.tsx:89-94 | an availability set off and then hidden is still stored |
| ShareYourStory.HandleInputChange | src/pages/ShareYourStory.tsx:36-42 | only the named field changes; the title is cut at 100 characters |
| ShareYourStory.AddTag | src/pages/ShareYourStory.tsx:44-55 | only Enter with a non-blank, new draft and under five tags appends the trimmed draft and clears it; otherwise nothing changes |
| ShareYourStory.RemoveTag | src/pages/ShareYourStory.tsx:57-62 | every copy of the tag goes, the others keep their order, nothing else changes |
| ShareYourStory.RemoveUndoesAdd | src/pages/ShareYourStory.tsx:44-62 | removing a tag just added restores the tag list |
| ShareYourStory.Step | src/pages/ShareYourStory.tsx:64-84 | Continue and Publish proceed only with both required fields; a successful publish reaches step 3 published; Back returns from step 2 to 1; Write Another resets to the empty form at step 1 |
| ShareYourStory.StepKeepsConsistent | src/pages/ShareYourStory.tsx:44-84 | every modelled event keeps: at most five distinct trimmed tags, step 1..3, steps 2 and 3 only with the required fields, step 3 only when published |
| ShareYourStory.RunKeepsConsistent | src/pages/ShareYourStory.tsx:405-409 | any event sequence keeps the wizard consistent |
| ShareYourStory.ReachableIsConsistent | src/pages/ShareYourStory.tsx:25-34 | within the modelled events (the 3-second reset is left out), every state reachable from the start is consistent, so the published step has a title and content |
| ShareYourStory.BackFromPublishedBlocksPublish | src/pages/ShareYourStory.tsx:355 | within the modelled events (the 3-second reset is left out), going back from the published step leaves the Publish button disabled |
| SuccessStories.ToggleLike | src/pages/SuccessStories.tsx:79-83 | the matching stories flip their like and move their count by one that way; others are untouched |
| SuccessStories.ToggleLikeTwice | src/pages/SuccessStories.tsx:79-83 | liking twice restores the list |
| SuccessStories.ToggleBookmark | src/pages/SuccessStories.tsx:85-89 | only the bookmark flag of the matching stories flips |
| SuccessStories.ToggleBookmarkTwice | src/pages/SuccessStories.tsx:79-89 | bookmarking twice restores the list; likes and bookmarks commute |
| SuccessStories.FilteredStories | src/pages/SuccessStories.tsx:91-100 | a story stays iff the query occurs, ignoring case, in title, excerpt or author, and on the popular tab it has over 100 likes |
| SuccessStories.TabsAndEmptyQuery | src/pages/SuccessStories.tsx:96-99 | with the empty query every tab but popular shows all stories |
| SuccessStories.PopularNarrowsAll | src/pages/SuccessStories.tsx:96-97 | the popular tab shows an ordered part of "all", regardless of query case |
| SuccessStories.InsertByLikes | src/pages/SuccessStories.tsx:103-107 | inserting into a most-liked-first list keeps it sorted and adds exactly that story |
| SuccessStories.SortByLikes | src/pages/SuccessStories.tsx:103-107 | the popular sort is a rearrangement of its input, most liked first |
| SuccessStories.SortByLikesKeepsStories | src/pages/SuccessStories.tsx:103-107 | the sorted list shows the same stories the filter chose |
| SuccessStories.SortByLikesKeepsSorted | src/pages/SuccessStories.tsx:103-107 | a list already most-liked-first, ties included, is left as it is |
| Header.SplitOnSpace | src/components/Header.tsx:51 | `split(' ')` always yields at least one piece |
| Header.SplitThenJoin | src/components/Header.tsx:51 | the pieces joined with spaces give the name back, and no piece holds a space |
| Header.FirstCharsAreWordStarts | src/components/Header.tsx:50-53 | the first characters of the pieces are exactly the word starts; empty pieces give nothing |
| Header.FirstTwo | src/components/Header.tsx:55 | `substring(0, 2)` is the prefix of length at most two |
| Header.Initials | src/components/Header.tsx:48-56 | a missing or empty name gives "U"; the result has at most two characters and no lower-case letter |
| Header.InitialsOfName | src/components/Header.tsx:48-56 | the initials are the first two word starts, upper-cased; a name of spaces gives none |
| Header.InitialsOfWords | src/components/Header.tsx:48-56 | one word gives one capital, two words give two |
| Header.AvatarName | src/components/Header.tsx:97 | the avatar uses the full name unless it is missing or empty, then the e-mail |
| Header.AvatarInitials | src/components/Header.tsx:97 | with neither a non-empty name nor an e-mail the avatar shows "U"; a name that does not start with a space shows its first character, upper-cased, first |

## Left out

- Remote I/O is not modelled: the store's reads and writes, the realtime
  subscriptions, error handling, toasts and loading flags. Queries are
  modelled as filters over a given `seq` of rows, and writes as row updates.
- Authorization lives in the store's policies, which are not part of this
  model.
- `Date` parsing, `toISOString` and `toLocaleString` are not modelled.
  - Times are integers.
  - A date input is `None` when empty.
  - The job expiry is read by a `dateOf` parameter.
- Case mapping covers ASCII letters only. Unicode `toLowerCase`/`toUpperCase`
  is left out.
- Header.Initials and ShareYourStory.HandleInputChange count characters as
  Unicode scalar values. The page counts UTF-16 code units for `n[0]`,
  `substring(0, 2)` and `maxLength`. So a name starting with a character
  outside the Basic Multilingual Plane gets that whole character here, where
  the page shows half a surrogate pair. Such a title is cut at 100 characters
  here, where the browser stops at 50.
- OneOnOne.SessionsSplit and AlumniEvents.EventsSplit use one `now` for both
  lists. The page reads the clock again for each list and for each element.
  An item whose time falls between two reads can appear in both lists or in
  neither. The partition holds only for a single instant.
- Insert payloads use `None` both for a column the page leaves out and for an
  explicit null. The Store functions give the column default for `None`. This
  matches the page only for left-out columns: every `status` the page sends
  as `None` is in fact left out.
- The recent sort of the success stories is left out. Its comparator parses
  labels such as "2 days ago" as dates.
- The story wizard leaves out three things:
  - The simulated publish delay and the timer that clears the form 3 seconds
    after publishing are not modelled. Publishing is taken as immediate and
    always successful, as the simulated call is. ShareYourStory.StepKeepsConsistent,
    ShareYourStory.ReachableIsConsistent and
    ShareYourStory.BackFromPublishedBlocksPublish hold over the modelled events
    only. The timer empties title and content and clears the submitting flag
    while the page stays on step 3, so on the page those facts can fail after it
    fires.
  - The step-2 media placeholders are not modelled.
  - Form submission that the browser triggers outside the Publish button is
    not modelled. This covers the Enter key in a step-1 input, and the step-3
    buttons, which carry no `type` and so also submit the form. Each button is
    modelled as its click handler only.
- ShareYourStory.Step: the Continue button's `disabled` attribute sits on a
  source line that also holds a literal `\n` inside the JSX tag. The model
  takes the evident intent: Continue is disabled unless both required fields
  are filled.
- BecomeMentor.ApplyUpsert: the store's conflict handling for the profile
  upsert is left out. The payload names neither `id` nor an `onConflict`
  column, so which row it replaces is decided by the store's keys, which are
  not part of this model. The model assumes the viewer's existing row is
  overwritten. It also assumes no store trigger touches `updated_at`, because
  the page does not send one.
- Other parts of the app are left out because they hold no logic to state:
  - the profile page, whose save does nothing;
  - routing;
  - the static hero and feature sections;
  - the header's menu state and click-outside listener.
- Text.ParseIntOfDecimal: covers unsigned numerals only. A minus sign is
  covered by Text.ParseIntNegated, relative to the unsigned parse, not as a
  closed form.
- Text.ParseIntOfDecimal, Text.ParseIntShowNat and Text.ParseInt return exact
  integers. JavaScript's `parseInt` returns a double, so above 2^53 it rounds:
  `parseInt("9007199254740993")` is 9007199254740992. The model does not round.
  This affects event capacities and session durations typed that large.
- SuccessStories.SortByLikes: the sort's stability, that equal counts keep
  their order, is stated only for lists already in order.
- Browser validation of the dialogs is not modelled: `required`, `min` and
  the input types. AlumniEvents.CreateEventCapacity states what `parseInt`
  makes of a capacity with a minus sign or a fraction. On the page the
  input's `min="1"` and its default step of 1 block such a submission, so
  only texts such as "1e3" reach the insert with a part dropped.
- AlumniEvents.CreateEventCapacity gives closed forms for a capacity text that
  starts with decimal digits, with or without a minus sign. Other texts a
  number input can hold, such as ".5" (which `parseInt` reads as NaN, so
  null is sent), are covered only by AlumniEvents.CreateEvent's general clause
  that the capacity is `parseInt` of the text.
