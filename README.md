# Meeting-slot finder and login status, modelled in Dafny

This project models two pieces of the portfolio repository.

- **The meeting-slot finder** (`FindMeetingQuery`). A meeting request names
  a duration and a set of mandatory attendees. The finder starts from one
  slot covering the whole day. It then visits the scheduled events in order.
  For each event that shares an attendee with the request, it walks the list
  of available slots with an iterator. It removes every slot that overlaps
  the event. For each removed slot it collects the piece before the event and
  the piece after it, keeping only pieces at least as long as the meeting.
  The collected pieces are appended to the list once the walk is done. A
  request longer than the whole day gets an empty answer.
- **The login status** (`LoginStatus`). This is an immutable record built
  from the signed-in user's email, which may be null. Someone is signed in
  exactly when the email is present. The record then carries the sign-out
  link; otherwise it carries the sign-in link. Both links are built by the
  user service for the path `"/"`.

Files:

- `calendar.dfy` (module `Calendar`): time ranges, events and meeting
  requests. Their Java classes are not part of this model, so the module
  states the interface the finder relies on. A `TimeRange` is a half-open
  range of minutes `[start, end)`. The whole day is `[0, 1440)`. Two ranges
  overlap when some minute lies in both of them.
- `find_meeting_query.dfy` (module `MeetingQuery`): the finder. The
  functions `LeftRemainder`, `RightRemainder` and `DifferenceSlots` cut one
  range out of another. `Survivors`, `Pieces`, `AfterEvent` and
  `AfterEvents` say, as values, what the list holds after each event's pass.
  The methods `CheckEventAttendees`, `RemoveOverlapping`, `GetSlotsAvailable`
  and `Query` follow the Java loops. They work on a `SlotList`, a class
  modelling the `java.util.List` that the finder updates in place. Each
  method is proved against the value-level functions. The lemmas prove what
  the answer means. Soundness: every returned slot lies in the day, is long
  enough, and overlaps no event of a mandatory attendee. Completeness: every
  stretch of the day that is long enough and clear of those events lies
  inside some returned slot.
- `login_status.dfy` (module `Login`): the login status as a datatype. It has
  a constructor function, a validity predicate and the four getters. The
  user service is a pair of uninterpreted URL builders.

## Model

| member | source | states |
|---|---|---|
| `MeetingQuery.CheckEventAttendees` | walkthroughs/week-5-tdd/project/src/main/java/com/google/sps/FindMeetingQuery.java:35-47 | returns true exactly when some attendee of the event is one of the target attendees, both directions |
| `MeetingQuery.LeftRemainder` | walkthroughs/week-5-tdd/project/src/main/java/com/google/sps/FindMeetingQuery.java:78-84 | the left piece starts where the main slot starts and is well formed; it lies in the main slot when the minor slot does not start after it; it holds no minute of the minor slot, and it holds every minute of the main slot before the minor slot starts |
| `MeetingQuery.RightRemainder` | walkthroughs/week-5-tdd/project/src/main/java/com/google/sps/FindMeetingQuery.java:92-95 | the right piece ends where the main slot ends and is well formed; it lies in the main slot when the minor slot does not end before it; it holds no minute of the minor slot, and it holds every minute of the main slot from the minor slot's end on |
| `MeetingQuery.DifferenceSlots` | walkthroughs/week-5-tdd/project/src/main/java/com/google/sps/FindMeetingQuery.java:72-104 | one range per remainder at least the target duration long and no other, each one of the two remainders, the left one first and the right one last; every kept range is at least the target duration long, overlaps no part of the minor slot, and lies in the main slot when the two slots overlap |
| `MeetingQuery.RemaindersAreDifference` | walkthroughs/week-5-tdd/project/src/main/java/com/google/sps/FindMeetingQuery.java:49-64 | for overlapping slots, a minute lies in one of the two remainders exactly when it lies in the main slot and not in the minor slot |
| `MeetingQuery.DifferenceSlotsKeepsRoom` | walkthroughs/week-5-tdd/project/src/main/java/com/google/sps/FindMeetingQuery.java:86-101 | a stretch at least the (positive) target duration long, inside the main slot and clear of the minor slot, lies inside one of the kept pieces: the length filter never drops room the meeting could use |
| `MeetingQuery.Survivors` | walkthroughs/week-5-tdd/project/src/main/java/com/google/sps/FindMeetingQuery.java:128-140 | the slots left in the list after the iterator's removals are exactly the slots that do not overlap the event, and there are no more of them than before |
| `MeetingQuery.Pieces` | walkthroughs/week-5-tdd/project/src/main/java/com/google/sps/FindMeetingQuery.java:136-138 | every collected piece is one of the difference pieces of some slot that overlapped the event, so it is at least the target duration long, overlaps no part of the event and lies inside that slot |
| `MeetingQuery.PiecesComplete` | walkthroughs/week-5-tdd/project/src/main/java/com/google/sps/FindMeetingQuery.java:133-138 | every piece cut from every overlapping slot is among the collected pieces |
| `MeetingQuery.AfterEvent` | walkthroughs/week-5-tdd/project/src/main/java/com/google/sps/FindMeetingQuery.java:120-144 | an event none of the targets attends leaves the list unchanged; after the pass of an event one of them attends, no slot overlaps that event |
| `MeetingQuery.UnrelatedEventsChangeNothing` | walkthroughs/week-5-tdd/project/src/main/java/com/google/sps/FindMeetingQuery.java:123 | a sequence of events none of the targets attends leaves the slots as they were |
| `MeetingQuery.AfterEventShrinks` | walkthroughs/week-5-tdd/project/src/main/java/com/google/sps/FindMeetingQuery.java:132-143 | every slot after a pass lies inside a slot from before the pass |
| `MeetingQuery.AfterEventSlotSound` | walkthroughs/week-5-tdd/project/src/main/java/com/google/sps/FindMeetingQuery.java:124-143 | if every slot lay in the day, was long enough and was clear of the events so far, each slot after the pass is too, and is also clear of the new event |
| `MeetingQuery.AfterEventSound` | walkthroughs/week-5-tdd/project/src/main/java/com/google/sps/FindMeetingQuery.java:120-145 | the same for every slot of the list after one event's pass |
| `MeetingQuery.AfterEventComplete` | walkthroughs/week-5-tdd/project/src/main/java/com/google/sps/FindMeetingQuery.java:128-143 | a long-enough stretch inside some slot and clear of an attended event still lies inside some slot after that event's pass |
| `MeetingQuery.AfterEventsSound` | walkthroughs/week-5-tdd/project/src/main/java/com/google/sps/FindMeetingQuery.java:115-146 | starting from slots that lie in the day and are long enough, all passes keep them so and leave every slot clear of every attended event |
| `MeetingQuery.AfterEventsComplete` | walkthroughs/week-5-tdd/project/src/main/java/com/google/sps/FindMeetingQuery.java:115-146 | a long-enough stretch inside some initial slot and clear of every attended event lies inside some slot after all passes |
| `MeetingQuery.QuerySound` | walkthroughs/week-5-tdd/project/src/main/java/com/google/sps/FindMeetingQuery.java:148-166 | every slot of the answer lies in the whole day, is at least the requested duration long, and overlaps no event of a mandatory attendee |
| `MeetingQuery.QueryComplete` | walkthroughs/week-5-tdd/project/src/main/java/com/google/sps/FindMeetingQuery.java:148-166 | for a positive duration, every stretch of the day at least that long and clear of the mandatory attendees' events lies inside some slot of the answer |
| `MeetingQuery.IteratorStep` | walkthroughs/week-5-tdd/project/src/main/java/com/google/sps/FindMeetingQuery.java:129-139 | one iterator step: the iterator stands on the next unvisited slot; removing it (when it overlaps) or stepping past it keeps the list equal to the survivors so far followed by the unvisited slots, and the collected pieces grow by that slot's pieces |
| `MeetingQuery.SlotList.Add` | walkthroughs/week-5-tdd/project/src/main/java/com/google/sps/FindMeetingQuery.java:160 | the list gains the slot at its end |
| `MeetingQuery.SlotList.AddAll` | walkthroughs/week-5-tdd/project/src/main/java/com/google/sps/FindMeetingQuery.java:143 | the list gains the new slots at its end, in order |
| `MeetingQuery.SlotList.RemoveAt` | walkthroughs/week-5-tdd/project/src/main/java/com/google/sps/FindMeetingQuery.java:135 | the slot under the iterator is removed and the others keep their order |
| `MeetingQuery.RemoveOverlapping` | walkthroughs/week-5-tdd/project/src/main/java/com/google/sps/FindMeetingQuery.java:124-140 | after the iterator walk the list holds exactly the survivors in their order, and the collected pieces are those of the overlapping slots in list order |
| `MeetingQuery.GetSlotsAvailable` | walkthroughs/week-5-tdd/project/src/main/java/com/google/sps/FindMeetingQuery.java:115-146 | the list is updated in place to the result of every event's pass, in order; non-overlapping slots stay, the pieces of removed slots are appended after them |
| `MeetingQuery.Query` | walkthroughs/week-5-tdd/project/src/main/java/com/google/sps/FindMeetingQuery.java:148-166 | the answer is empty when the duration exceeds the whole day; every slot of it lies in the day, is long enough and is clear of the mandatory attendees' events; for a positive duration, every long-enough clear stretch lies inside one of its slots |
| `Calendar.OverlapsIffSharedMinute` | walkthroughs/week-5-tdd/project/src/main/java/com/google/sps/FindMeetingQuery.java:133 | two ranges overlap exactly when some minute lies in both |
| `Calendar.OverlapsIffStartContained` | walkthroughs/week-5-tdd/project/src/main/java/com/google/sps/FindMeetingQuery.java:133 | on ranges holding at least one minute, overlapping is the same as one range holding the other's first minute |
| `Login.NewLoginStatus` | portfolio/src/main/java/com/google/sps/data/LoginStatus.java:26-37 | the status is valid; the email is stored as given; signed in exactly when the email is present; when signed out, the sign-in link is the service's for "/" and there is no sign-out link; when signed in, the reverse; exactly one link is present |
| `Login.ValidIsConstructible` | portfolio/src/main/java/com/google/sps/data/LoginStatus.java:26-37 | every status satisfying the validity predicate is what the constructor builds for its own email and some user service |
| `Login.GettersReturnConstructedValues` | portfolio/src/main/java/com/google/sps/data/LoginStatus.java:21-53 | each getter returns the value the constructor stored |
| `Login.LoginStatus.GetLoggedIn` | portfolio/src/main/java/com/google/sps/data/LoginStatus.java:39-41 | on a valid status, true exactly when an email is present |
| `Login.LoginStatus.GetUserEmail` | portfolio/src/main/java/com/google/sps/data/LoginStatus.java:43-45 | on a valid status, an email is returned exactly when signed in |
| `Login.LoginStatus.GetLoginUrl` | portfolio/src/main/java/com/google/sps/data/LoginStatus.java:47-49 | on a valid status, a sign-in link is returned exactly when signed out |
| `Login.LoginStatus.GetLogoutUrl` | portfolio/src/main/java/com/google/sps/data/LoginStatus.java:51-53 | on a valid status, a sign-out link is returned exactly when signed in |

## Left out

- `TimeRange`, `Event` and `MeetingRequest` are not part of this model. The model assumes the whole day is `[0, 1440)`. It also assumes that two ranges overlap exactly when they share a minute, so a range with no minutes overlaps nothing. For ranges that hold at least one minute this is the usual start-containment test (`Calendar.OverlapsIffStartContained`). For empty ranges the real `overlaps` may answer differently. That matters only when the requested duration is zero or negative (empty slots can then be kept) or an event has an empty range.
- The cast of the request's `long` duration to `int` and Java's 32-bit overflow are not modelled; all minute arithmetic uses mathematical integers.
- The event collection is a sequence in iteration order. Attendee collections are sets, since the finder only asks whether a name is in them.
- `CheckEventAttendees` visits the event's attendees in an arbitrary order, as iterating a Java `Set` does; only its true/false answer is modelled.
- `Query` returns the contents of the list it built as a value. Whether the caller shares that list object is not modelled.
- `UserService.createLoginURL` and `createLogoutURL` are foreign calls. They are uninterpreted functions of the path, so the model says which link is built and for which path, but not what it looks like.
- A null email or link is `None`.
- The comment widget, gallery, theme and map scripts, the servlets, and the `Comment` and `Marker` records are not part of this model. They are DOM manipulation, network calls, datastore access and plain field holders, with no local logic to verify.
