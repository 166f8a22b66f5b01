# Albright student calendar — domain model

A Dafny model of the domain layer of the Albright student calendar, a
single-file Tk desktop application. Three classes make up that layer:

- `User` is the access gate. A new user is not approved. `request_access`
  approves the user exactly when the email ends with the literal,
  case-sensitive suffix `@albright.edu`, and reports whether it did.
- `Event` holds five text fields. `display` renders one listing line
  `date | time | title (category)`.
- `Calendar` is the in-memory store. It keeps two lists, both starting empty:
  the authorised users and the events. `add_user` appends a user only if it is
  approved. `add_event` appends an event only if its user is already in the
  authorised list, compared by object identity, and returns whether it did.

The model has three modules:

- `Access` (access.dfy) holds the suffix test as pure predicates (`EndsWith`,
  `IsAlbrightEmail`) and `User` as a class. `name` and `email` are constants,
  because nothing ever reassigns them. `approved` is the one mutable field.
  `User.Valid()` is the class invariant: approved implies an Albright address.
- `Events` (events.dfy) holds `Event` as a datatype and `Display` as a pure
  function. `DateOf` reads the date back from a listing line, as a partner
  of `Display`.
- `Calendars` (calendar.dfy) holds `Calendar` as a class with two `seq`
  fields that its methods reassign. Users are references, so `user in
  authorizedUsers` is identity membership, as in Python with no `__eq__`.
  `Calendar.Valid()` says every authorised user is approved and valid. Each
  method is also tied to a pure step function, `Step`, over a `Store` value.
  The lemmas about `Run`, which folds `Step` over a sequence of calls, state
  what holds over any history of calls.

The code has no delete operation and no date-grouped, sorted listing, so
neither is modelled. The screen lists `events` in insertion order, through
`display`.

## Model

| member | source | states |
|---|---|---|
| Access.EndsWithAgrees | albrightcalendar.py:14 | `EndsWith` and `IsAlbrightEmail` (the suffix `@albright.edu`) model this line; the suffix test (the string's tail as long as the suffix equals the suffix) agrees with a character-by-character comparison from the end, in both directions |
| Access.EndsWithPrepend | albrightcalendar.py:14 | the gate looks only at the tail: anything put before an accepted address keeps it accepted (empty local part, extra `@`) |
| Access.GateExamples | albrightcalendar.py:14 | accepted: `sam@albright.edu`, `@albright.edu`; refused: a different domain, a different case, text after the domain, a missing `@` |
| Access.User.constructor | albrightcalendar.py:8-11 | a new user keeps the given name and email and is not approved |
| Access.User.RequestAccess | albrightcalendar.py:13-17 | returns true iff the email ends with `@albright.edu`; on true the user is approved afterwards, on false the flag is unchanged; the flag never goes back to false and approval implies an Albright address |
| Events.Display | albrightcalendar.py:31-32 | the line is 9 characters longer than date, time, title and category together; it starts with the date followed by a blank, a bar and a blank, and ends with ` (category)` |
| Events.DisplayIgnoresDescription | albrightcalendar.py:31-32 | the description does not appear in the line: changing it leaves the line unchanged |
| Events.DateOfDisplay | albrightcalendar.py:31-32 | the date is recovered from the listing line whenever the date contains no bar character |
| Calendars.Calendar.constructor | albrightcalendar.py:39-41 | a new calendar has no events and no authorised users |
| Calendars.Calendar.AddUser | albrightcalendar.py:43-45 | appends the user at the end iff it is approved, duplicates included, otherwise no change; events untouched; the store invariant (every authorised user approved, with an Albright address) is kept |
| Calendars.Calendar.AddEvent | albrightcalendar.py:47-51 | returns true iff this very user object is authorised; on true the event is appended at the end, on false the events are unchanged; the authorised users are never changed, so the store invariant is kept |
| Calendars.AuthorizedEmailsAreAlbright | albrightcalendar.py:13-45 | in a valid calendar every authorised user is approved and has an `@albright.edu` address: the store invariant read off `Calendar.Valid()`, which `add_user` keeps because it admits only approved users and `request_access` approves only Albright addresses |
| Calendars.Step | albrightcalendar.py:43-51 | the pure model of `add_user` and `add_event`: an accepted call appends at the end of the list it concerns, a refused one changes nothing; both lists keep their old contents as a prefix, and their total length grows by one exactly when the call is accepted |
| Calendars.RunConcat | albrightcalendar.py:43-51 | running two batches of calls one after the other equals running them together |
| Calendars.RunOnlyAppends | albrightcalendar.py:43-51 | over any history, the old events and the old authorised users stay in place at the front: nothing is removed or reordered, and authorisation is never revoked |
| Calendars.RunEventCount | albrightcalendar.py:47-50 | the number of events grows by exactly the number of accepted `add_event` calls |
| Calendars.RunAuthorizedApproved | albrightcalendar.py:43-45 | every authorised user was there from the start or was added by `add_user` while approved |
| Calendars.RunEventsWereAuthorized | albrightcalendar.py:47-50 | every event added by a history was submitted by a call whose user was in the authorised list at that moment |
| Calendars.DeniedUserCannotPost | albrightcalendar.py:43-51 | a user never authorised and never admitted while approved cannot add an event after any history: the call changes nothing |
| Calendars.SignInThenPost | albrightcalendar.py:87-140 | the handlers' calls (new user, `request_access`; when granted, `add_user` and later `add_event` from the save-event handler; when refused, nothing more) post the event iff the email ends with `@albright.edu`; the new user is appended to the authorised users exactly then, and otherwise both lists are unchanged; the store invariant is kept |

## Left out

- `CalendarApp` (albrightcalendar.py:57-155): Tk widgets, screen switching, message boxes and `clear_screen` are presentation code over a library the model cannot see. `SignInThenPost` models only the calls that its `request_access` and `save_event` handlers make, in one method, with the entry texts as parameters; the screen switch between the two handlers is not modelled.
- `refresh_events` (albrightcalendar.py:111-114) only renders `events` in insertion order into a list box; it belongs to the GUI class.
- The `__main__` block and `root.mainloop()` (albrightcalendar.py:161-164): process and event-loop startup.
- Deleting an event and listing events grouped and sorted by date: the code has neither operation.
- Validation or parsing of `date` and `time`: the code stores them as opaque text.
- Reassigning `name` or `email` from outside the class: Python allows it, but the code never does it, so both fields are constants here.
- `Access.User.RequestAccess` and `Calendars.Calendar.AddUser` require the class invariants (`User.Valid()`, `Calendar.Valid()`). Every object built by the constructors and changed only by these methods satisfies them.
