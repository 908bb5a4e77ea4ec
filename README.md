# Event hub: records, request handlers and dashboard figures

This project models the core of a small Flask event hub. Users register and
log in. Organizers publish events with a start time and a duration in minutes.
Users register for events. The app lists each user's upcoming events, their
past events and all archived events. An analytics page shows the top three
events by average rating and by number of participants.

The model has three modules:

- `Model` (model.dfy) holds the records of event_hub_app/auth/model.py: `User`,
  `Event`, `Feedback` and the `event_participant` relation, together with the
  key constraints of the schema.
- `Views` (views.dfy) holds the handler logic of event_hub_app/auth/views.py.
  The class `EventHub` stands for the database. Its fields are the `users`
  table, the `events` table (each event carries its participant list) and an
  id counter. Each handler that reads or writes the database is a method.
  The filters the list views apply are specification functions, and the
  methods are proved equal to them.
- `Analytics` (analytics.dfy) holds event_hub_app/auth/analytics_dashboard.py.
  It builds the three data-frame columns (name, average rating, participant
  count) and selects the top three rows by each key.

Modelling choices:

- Ids are natural numbers taken from a counter, not UUID strings. A fresh id
  therefore never collides with an existing one.
- Timestamps are integers counted in microseconds. A duration is an integer
  number of minutes, and `EndTime` is the start plus the duration times
  60 000 000.
- The current user is a parameter `Option<UserId>`. `None` is the anonymous
  user. The clock reading `now` is also a parameter.
- The password check is a parameter `User -> bool`, and the stored hash is an
  opaque string.
- Some handlers raise: they dereference the anonymous user or an event that
  does not exist. There the model returns `Err(NotLoggedIn)` or
  `Err(EventMissing)` and the database is unchanged.
- Some operations catch an exception. The model names each such outcome:
  - `register` shows a message when the insert of a duplicate username
    fails, giving `StoreRejected`;
  - `login` shows a message when an empty `next` argument makes the
    redirect choice raise, giving `LoginFailed`;
  - `get_event_data` prints to the console and returns nothing when a
    missing rating makes the sum raise, giving no data frame.

Three behaviours of the code are worth stating plainly:

- `register_event` does not look at the clock, so there is no
  "registration closed" outcome. The closed flag appears only in
  `event_details`.
- No handler stores feedback (`submit_feedback` only redirects), and only
  the id keys `feedbacks`, so one user may rate one event twice.
  `Model.FeedbackPairMayRepeat` states the latter.
- Event names are kept apart only by the check in `organize_event`; the
  schema has no unique flag on them (`Views.EventNamesMayRepeat`), and
  `update_event` assigns a new name without checking it
  (`Views.EditCanRepeatNames`).

## Model

| member | source | states |
|---|---|---|
| Model.NewUser | event_hub_app/auth/model.py:28-32 | the new user keeps the given username, email, phone number and password hash |
| Model.NewEvent | event_hub_app/auth/model.py:53-59 | the new event stores every argument unchanged (the event duration as its duration) and has no participants |
| Model.NewFeedback | event_hub_app/auth/model.py:74-78 | the new feedback row stores the event, the user, the rating and the comment unchanged |
| Model.CheckEventName | event_hub_app/auth/model.py:61-62 | true exactly when the event's name differs from the given name |
| Model.ParticipationRows | event_hub_app/auth/model.py:81-85 | the `event_participant` table built from the events' participant lists: every row pairs an event id with a user that event lists |
| Model.RowsMembership | event_hub_app/auth/model.py:81-85 | an (event, user) pair is in the `event_participant` table exactly when some event with that id lists that user |
| Model.RowsUnique | event_hub_app/auth/model.py:81-85 | with distinct event ids and no user listed twice per event, no (event, user) pair occurs twice in the table (the composite primary key) |
| Model.FeedbackPairMayRepeat | event_hub_app/auth/model.py:65-72 | only the id keys `feedbacks`: two rows with distinct ids may rate the same event for the same user |
| Views.EndTime | event_hub_app/auth/views.py:207 | the end time is the start plus the duration in minutes: after the start exactly when the duration is positive, equal to it exactly when the duration is zero |
| Views.Select | event_hub_app/auth/views.py:192-194 | the filter the list loops apply: at most as many events as given, and an event is kept exactly when it is given and meets the condition |
| Views.RegisteredList | event_hub_app/auth/views.py:189-194 | an event is listed exactly when the user is a participant and it starts strictly after now |
| Views.ParticipatedList | event_hub_app/auth/views.py:203-209 | an event is listed exactly when the user is a participant and its end time is strictly before now |
| Views.ArchivedList | event_hub_app/auth/views.py:227-234 | an event is listed exactly when its end time is at or before now |
| Views.ArchivedBeforeParticipated | event_hub_app/auth/views.py:207-233 | at the very instant an event ends it is archived but not yet participated (strict `<` against `<=`) |
| Views.ParticipatedAreArchived | event_hub_app/auth/views.py:207-233 | every event in a user's participated list is also in the archived list |
| Views.RegisteredParticipatedDisjoint | event_hub_app/auth/views.py:193-208 | with non-negative durations no event is both registered and participated |
| Views.IndexOf | event_hub_app/auth/views.py:166 | lookup by id yields a position holding an event with that id, or none when no event has that id |
| Views.RedirectTarget | event_hub_app/auth/views.py:56-59 | the target always starts with '/'; it is `next` when that starts with '/', otherwise the welcome page; no target (the index raises) for an empty `next` |
| Views.RedirectFollowsNext | event_hub_app/auth/views.py:56-59 | the login redirect follows `next` exactly when `next` is present and starts with '/' |
| Views.ParticipationKeyHolds | event_hub_app/auth/model.py:81-85 | in a consistent database no (event, user) pair occurs twice in `event_participant` |
| Views.EventNamesMayRepeat | event_hub_app/auth/model.py:42 | a consistent database may hold two events with the same name: the schema does not make names unique |
| Views.RemoveAt | event_hub_app/auth/views.py:259-262 | deleting the event at a position keeps the ids distinct and removes exactly the events with its id |
| Views.AddParticipant | event_hub_app/auth/views.py:171-176 | the participants become the old ones plus the user; nothing changes if the user is listed, otherwise the user is appended; other fields are kept and no user is listed twice |
| Views.AddParticipantIdempotent | event_hub_app/auth/views.py:171-176 | adding the same participant twice equals adding once |
| Views.Edited | event_hub_app/auth/views.py:244-248 | name, description, start, duration and location take the new values; the id, the organizer and the participants are kept |
| Views.EditCanRepeatNames | event_hub_app/auth/views.py:244 | an edit that gives an event another event's name leaves two events with one name: update_event does not keep names distinct |
| Views.RegisteredScan | event_hub_app/auth/views.py:136-140 | scanning the user's events for the event's id finds it exactly when the user is a participant |
| Views.EventHub.Login | event_hub_app/auth/views.py:52-63 | unknown email or wrong password is rejected; otherwise the user is logged in and redirected to the chosen target, or the login fails when choosing it raises |
| Views.EventHub.Register | event_hub_app/auth/views.py:75-87 | a known email is refused and a duplicate username is rejected by the store, both without change; otherwise exactly one user with a fresh id is added, and the store's constraints still hold |
| Views.EventHub.OrganizeEvent | event_hub_app/auth/views.py:95-109 | a name in use is refused; then the anonymous user is refused; otherwise exactly one new event with a fresh id and the current user as organizer is appended; names that were distinct stay distinct |
| Views.EventHub.EventDetails | event_hub_app/auth/views.py:127-161 | for a logged-in viewer and a stored event: organiser iff the viewer organizes it, registered iff the viewer is a participant, closed iff now is at or past its start |
| Views.EventHub.RegisterEvent | event_hub_app/auth/views.py:166-182 | an anonymous user or an unknown id changes nothing; otherwise the user is appended to that event's participants unless already listed, in which case AlreadyRegistered is reported and nothing changes |
| Views.EventHub.RegisteredEvents | event_hub_app/auth/views.py:188-196 | returns, in store order, exactly the user's events that start after now |
| Views.EventHub.ParticipatedEvents | event_hub_app/auth/views.py:202-212 | returns, in store order, exactly the user's events that ended strictly before now |
| Views.EventHub.ArchivedEvents | event_hub_app/auth/views.py:227-236 | returns, in store order, exactly the events that ended at or before now |
| Views.EventHub.UpdateEvent | event_hub_app/auth/views.py:241-252 | an unknown id changes nothing; otherwise only the five edited fields of that one event change |
| Views.EventHub.DeleteEvent | event_hub_app/auth/views.py:258-267 | an unknown id reports "not found" and changes nothing; otherwise exactly the event with that id is removed and every other event stays |
| Views.RegisterTwice | event_hub_app/auth/views.py:171-173 | registering a user not yet listed reports Registered and then AlreadyRegistered, and the result equals a single registration |
| Analytics.FeedbackOf | event_hub_app/auth/analytics_dashboard.py:22 | exactly the feedback rows that refer to the event |
| Analytics.Ratings | event_hub_app/auth/analytics_dashboard.py:22 | one rating (possibly missing) per feedback row, in order |
| Analytics.Average | event_hub_app/auth/analytics_dashboard.py:23-26 | the average of no ratings is 0 |
| Analytics.AverageIsMean | event_hub_app/auth/analytics_dashboard.py:24 | the average times the number of ratings is their sum |
| Analytics.AverageWithinRange | event_hub_app/auth/analytics_dashboard.py:23-26 | the average of a non-empty rating list lies between its smallest and largest rating |
| Analytics.AverageBetween | event_hub_app/auth/analytics_dashboard.py:24 | bounds that hold for every rating hold for the average |
| Analytics.AverageFor | event_hub_app/auth/analytics_dashboard.py:22-26 | an event's average rating is 0 without feedback and otherwise lies between its smallest and largest rating |
| Analytics.GetEventData | event_hub_app/auth/analytics_dashboard.py:11-40 | no frame exactly when there are no events or a rating is missing; otherwise one row per event holding its name, average rating and participant count |
| Analytics.SortDescending | event_hub_app/auth/analytics_dashboard.py:49-50 | the rows sorted by a key in descending order, a permutation of the input |
| Analytics.TopThree | event_hub_app/auth/analytics_dashboard.py:49-50 | the head of the sorted frame holds min(3, n) rows in descending order, drawn from the frame, and no row left out has a larger key than a row kept |
| Analytics.GraphData | event_hub_app/auth/analytics_dashboard.py:47-50 | no graph data exactly when there is no frame; otherwise the top three rows by rating and the top three by participation, each of min(3, n) rows in descending order and drawn from the frame |

## Left out

- Flask plumbing is not modelled: routing, templates, `flash` messages, redirects to named pages, `login_required` and the session. A handler's outcome is a result value.
- The debug `print` calls in `event_details` are not modelled. They have no effect on state.
- Password hashing (`generate_password_hash`, `check_password_hash`) is foreign code. The model stores the hash as given, and the check is a parameter of `Login`.
- `load_user` is the session loader of the login extension. The current user is a parameter instead.
- UUID generation is replaced by a counter.
- Views.EndTime: timestamps and durations are assumed to lie within Python's datetime range (years 1 to 9999, timedeltas up to 999 999 999 days). Beyond it, the addition in `user_participated_events` and `archived_events` raises OverflowError and the page fails, while the model still lists the event.
- The string form of `duration` and `int(event.duration)` are left out. A duration is an integer, so a non-numeric duration (which raises in the source) cannot be expressed.
- Form validation is left out because it is mostly foreign code. This covers `validate_on_submit` and the forms the views import but forms.py does not define. The model takes the form data as already validated; a failed validation simply renders the form again.
- The database session is left out: transactions, rollbacks and concurrent requests. Each method runs atomically.
- Views.EventHub.DeleteEvent: the hub does not hold feedback, so the failure of deleting an event that has feedback is not modelled. `Event.feedback` declares no delete cascade, so the store would set `feedbacks.event_id` to NULL, which that non-nullable column refuses, and the commit raises. Participation rows go with the event, since each event carries its own list.
- `Views.EventHub.EventDetails`: the source raises on an unknown event before its 404 check can run. The model reports `EventMissing` instead of an error page.
- `home`, `welcome`, `logout`, `events`, `all_events` and `user_organized_events` are left out. They only render a page or return a stored list unchanged.
- `give_feedback` and `submit_feedback` are left out. They render a form or redirect and change nothing.
- The commented-out draft in `submit_feedback` is not code, and is left out.
- Plotting is left out: matplotlib figures, titles and `savefig` in `generate_graph`. `GraphData` stops at the two selections the plots show.
- Pandas data frames are modelled by their three columns, and averages are exact reals rather than floating point.
- Analytics.SortDescending: pandas' default sort does not fix the order of equal keys. The model uses a stable insertion sort, so it picks one of the orders pandas may produce. The contract of `TopThree` states only what holds for every order.
- Views.EventHub.OrganizeEvent and Views.EventHub.RegisterEvent require a logged-in user to be a stored user. The session loader guarantees this.
- event_hub_app/test_form_model.py is a test suite and is not part of this model.
