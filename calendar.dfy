/** The event store of the Albright student calendar: the users allowed to
    post and the events they posted, both kept in insertion order. */
module Calendars {
  import opened Access
  import opened Events

  /** The store's state as a value: the events list and the authorised-users
      list. Users are object references and are compared as such. */
  datatype Store = Store(events: seq<Event>, authorized: seq<User>)

  /** The state of a new calendar. */
  const Empty: Store := Store([], [])

  /** One call on the store. `Admit` carries the `approved` flag the user has
      at the moment of the call. */
  datatype Call = Admit(user: User, approved: bool) | Submit(user: User, event: Event)

  /** Whether the store takes the call: an approved user is admitted, and an
      event is taken from a user already in the authorised list. */
  predicate Accepts(s: Store, c: Call)
  {
    match c
    case Admit(_, approved) => approved
    case Submit(user, _) => user in s.authorized
  }

  /** The effect of one call: an accepted call appends at the end of the list
      it concerns; a refused one changes nothing. */
  function Step(s: Store, c: Call): (r: Store)
    ensures s.events <= r.events && s.authorized <= r.authorized
    ensures |r.events| + |r.authorized| == |s.events| + |s.authorized| + (if Accepts(s, c) then 1 else 0)
  {
    if !Accepts(s, c) then s
    else match c
      case Admit(user, _) => s.(authorized := s.authorized + [user])
      case Submit(_, event) => s.(events := s.events + [event])
  }

  /** The state after a sequence of calls, in order. */
  function Run(s: Store, cs: seq<Call>): (r: Store)
    decreases |cs|
  {
    if cs == [] then s else Run(Step(s, cs[0]), cs[1..])
  }

  /** How many of the calls are submissions the store takes. */
  function EventsAccepted(s: Store, cs: seq<Call>): (n: nat)
    decreases |cs|
  {
    if cs == [] then 0
    else (if cs[0].Submit? && Accepts(s, cs[0]) then 1 else 0) + EventsAccepted(Step(s, cs[0]), cs[1..])
  }

  /** Running calls one batch after another is running them all at once. */
  lemma {:induction false} RunConcat(s: Store, cs: seq<Call>, ds: seq<Call>)
    ensures Run(s, cs + ds) == Run(Run(s, cs), ds)
    decreases |cs|
  {
    if cs == [] {
      assert cs + ds == ds;
    } else {
      assert (cs + ds)[0] == cs[0];
      assert (cs + ds)[1..] == cs[1..] + ds;
      RunConcat(Step(s, cs[0]), cs[1..], ds);
    }
  }

  /** Nothing is ever removed or reordered: the old events and the old
      authorised users stay, in place, at the front of both lists. */
  lemma {:induction false} RunOnlyAppends(s: Store, cs: seq<Call>)
    ensures s.events <= Run(s, cs).events
    ensures s.authorized <= Run(s, cs).authorized
    decreases |cs|
  {
    if cs != [] {
      RunOnlyAppends(Step(s, cs[0]), cs[1..]);
    }
  }

  /** The events list grows by exactly one entry per accepted submission. */
  lemma {:induction false} RunEventCount(s: Store, cs: seq<Call>)
    ensures |Run(s, cs).events| == |s.events| + EventsAccepted(s, cs)
    decreases |cs|
  {
    if cs != [] {
      RunEventCount(Step(s, cs[0]), cs[1..]);
    }
  }

  /** Only approved users enter the authorised list: each user in it was
      there from the start or was admitted while approved. */
  lemma {:induction false} RunAuthorizedApproved(s: Store, cs: seq<Call>)
    ensures forall u :: u in Run(s, cs).authorized ==> u in s.authorized || Admit(u, true) in cs
    decreases |cs|
  {
    if cs != [] {
      var s1 := Step(s, cs[0]);
      RunAuthorizedApproved(s1, cs[1..]);
      assert cs == [cs[0]] + cs[1..];
    }
  }

  /** Every event added by the calls was submitted by one of them, by a user
      who was in the authorised list at the moment of that submission. */
  lemma {:induction false} RunEventsWereAuthorized(s: Store, cs: seq<Call>, k: nat)
    requires |s.events| <= k < |Run(s, cs).events|
    ensures exists i :: 0 <= i < |cs| && cs[i].Submit? && cs[i].event == Run(s, cs).events[k]
                        && cs[i].user in Run(s, cs[..i]).authorized
    decreases |cs|
  {
    var c, rest := cs[0], cs[1..];
    var s1 := Step(s, c);
    assert Run(s, cs) == Run(s1, rest);
    if k < |s1.events| {
      RunOnlyAppends(s1, rest);
      assert cs[..0] == [];
    } else {
      RunEventsWereAuthorized(s1, rest, k);
      var j :| 0 <= j < |rest| && rest[j].Submit? && rest[j].event == Run(s1, rest).events[k]
               && rest[j].user in Run(s1, rest[..j]).authorized;
      assert cs[..j + 1] == [c] + rest[..j];
      assert cs[j + 1] == rest[j];
    }
  }

  /** A user who is not authorised and is never admitted while approved can
      never post: whatever happened before, the submission changes nothing. */
  lemma DeniedUserCannotPost(s: Store, cs: seq<Call>, u: User, e: Event)
    requires u !in s.authorized
    requires Admit(u, true) !in cs
    ensures Run(s, cs + [Submit(u, e)]) == Run(s, cs)
  {
    RunConcat(s, cs, [Submit(u, e)]);
    RunAuthorizedApproved(s, cs);
  }

  /** Every authorised user of a valid calendar has an Albright address, so
      no other address can ever add an event. */
  lemma AuthorizedEmailsAreAlbright(cal: Calendar, u: User)
    requires cal.Valid() && u in cal.authorizedUsers
    ensures u.approved && IsAlbrightEmail(u.email)
  {
  }

  /** The in-memory calendar: the authorised users and the events, both in
      insertion order. A user appears once per admission; duplicates are kept. */
  class Calendar {
    var events: seq<Event>
    var authorizedUsers: seq<User>

    /** Every authorised user is approved, and so has an Albright address. */
    ghost predicate Valid()
      reads this`authorizedUsers, authorizedUsers
    {
      forall i :: 0 <= i < |authorizedUsers| ==> authorizedUsers[i].approved && authorizedUsers[i].Valid()
    }

    /** The calendar's state as a `Store` value. */
    function Snapshot(): (s: Store)
      reads this
    {
      Store(events, authorizedUsers)
    }

    constructor ()
      ensures Snapshot() == Empty
      ensures Valid()
    {
      events := [];
      authorizedUsers := [];
    }

    /** Admits `user` when it is approved, at the end of the list; otherwise
        nothing changes. The events are never touched. */
    method AddUser(user: User)
      requires Valid() && user.Valid()
      modifies this`authorizedUsers
      ensures Valid()
      ensures authorizedUsers == if user.approved then old(authorizedUsers) + [user] else old(authorizedUsers)
      ensures events == old(events)
      ensures Snapshot() == Step(old(Snapshot()), Admit(user, user.approved))
    {
      if user.approved {
        authorizedUsers := authorizedUsers + [user];
      }
    }

    /** Appends `event` when `user` (this very object) is authorised, and
        reports whether it did. The authorised users are never touched. */
    method AddEvent(user: User, event: Event) returns (added: bool)
      modifies this`events
      ensures old(Valid()) ==> Valid()
      ensures added == (user in authorizedUsers)
      ensures events == if added then old(events) + [event] else old(events)
      ensures authorizedUsers == old(authorizedUsers)
      ensures Snapshot() == Step(old(Snapshot()), Submit(user, event))
    {
      if user in authorizedUsers {
        events := events + [event];
        return true;
      }
      return false;
    }
  }

  /** The calls the screens make: a new user asks for access and, when
      granted, is admitted and becomes the current user; only then does the
      calendar screen, and with it the save-event handler, open. A refused
      user stays on the login screen and submits nothing. */
  method SignInThenPost(cal: Calendar, name: string, email: string, event: Event) returns (user: User, posted: bool)
    requires cal.Valid()
    modifies cal
    ensures cal.Valid()
    ensures fresh(user) && user.name == name && user.email == email
    ensures user.approved == IsAlbrightEmail(email)
    ensures posted == IsAlbrightEmail(email)
    ensures cal.authorizedUsers == if posted then old(cal.authorizedUsers) + [user] else old(cal.authorizedUsers)
    ensures cal.events == if posted then old(cal.events) + [event] else old(cal.events)
  {
    user := new User(name, email);
    var granted := user.RequestAccess();
    if granted {
      cal.AddUser(user);
      posted := cal.AddEvent(user, event);
    } else {
      posted := false;
    }
  }
}
