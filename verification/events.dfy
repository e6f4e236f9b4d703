/**
 * The events page (`pages/Events.tsx`): the search filter, the
 * "interested" button (a simulated registration that completes after a
 * delay), who may create events, and the defaults of a created event.
 */
module Events {
  import opened Wrappers
  import opened Types
  import Text
  import Seqs
  import Db

  /** The search box: the lower-cased term in the lower-cased title, location or type name. */
  predicate MatchesSearch(e: Event, term: string) {
    var t := Text.Lower(term);
    || Text.Contains(Text.Lower(e.title), t)
    || Text.Contains(Text.Lower(e.location), t)
    || Text.Contains(Text.Lower(EventTypeName(e.kind)), t)
  }

  /** `filteredEvents`: the matching events, in list order. */
  function FilteredEvents(events: seq<Event>, term: string): (r: seq<Event>)
    ensures Seqs.Subseq(r, events)
    ensures forall e :: e in r <==> e in events && MatchesSearch(e, term)
    ensures forall e :: multiset(r)[e] == if MatchesSearch(e, term) then multiset(events)[e] else 0
  {
    Seqs.FilterSubseq(events, e => MatchesSearch(e, term));
    Seqs.Filter(events, e => MatchesSearch(e, term))
  }

  /** Searching for a type name, in any case, finds every event of that type. */
  lemma TypeNameFindsType(events: seq<Event>, kind: EventType, term: string)
    requires Text.Lower(term) == Text.Lower(EventTypeName(kind))
    ensures forall e :: e in events && e.kind == kind ==> e in FilteredEvents(events, term)
  {
    forall e | e in events && e.kind == kind
      ensures MatchesSearch(e, term)
    {
      assert Text.Lower(EventTypeName(e.kind)) <= Text.Lower(EventTypeName(e.kind));
    }
  }

  // ---------------------------------------------------------------- interest

  /** The ids the user registered interest in, and the one whose registration is running. */
  datatype Interest = Interest(ids: set<Id>, loading: Option<Id>)

  /**
   * A click on "interested": for an event already registered nothing
   * happens and no registration starts; otherwise the event shows as loading
   * and a registration is started.
   */
  function Click(s: Interest, eventId: Id): (r: (Interest, bool))
    ensures r.1 <==> eventId !in s.ids
    ensures !r.1 ==> r.0 == s
    ensures r.1 ==> r.0 == s.(loading := Some(eventId))
  {
    if eventId in s.ids then (s, false) else (s.(loading := Some(eventId)), true)
  }

  /** The registration finishing: exactly that id joins the set, and nothing is loading. */
  function Complete(s: Interest, eventId: Id): (r: Interest)
    ensures r.ids == s.ids + {eventId}
    ensures r.loading.None?
  {
    Interest(s.ids + {eventId}, None)
  }

  /** Once registered, clicking again starts nothing. */
  lemma RegisteredClickIsNoop(s: Interest, eventId: Id)
    ensures var done := Complete(Click(s, eventId).0, eventId);
      Click(done, eventId) == (done, false)
  {
  }

  /** Two registrations of the same event, say from a double click, leave the same set as one. */
  lemma CompleteIdempotent(s: Interest, eventId: Id)
    ensures Complete(Complete(s, eventId), eventId) == Complete(s, eventId)
  {
  }

  // ---------------------------------------------------------------- creating

  /** `canCreateEvent`: a signed-in administrator or faculty member. */
  function CanCreateEvent(user: Option<User>): (r: bool)
    ensures r <==> user.Some? && (user.value.role == Admin || user.value.role == Faculty)
  {
    user.Some? && user.value.role in [Admin, Faculty]
  }

  /** A member who just signed up may create events exactly when the role they chose is administrator or faculty. */
  lemma RegisteredRoleDecides(st: Db.Store, draft: User, now: nat)
    ensures CanCreateEvent(Db.Register(st, draft, now).0.authUser) <==> draft.role == Admin || draft.role == Faculty
  {
  }

  /** Students, alumni, mentors, companies and teachers never see the button, nor does anyone once signed out. */
  lemma OthersCannotCreate(st: Db.Store, u: User)
    requires u.role !in {Admin, Faculty}
    ensures !CanCreateEvent(Some(u))
    ensures !CanCreateEvent(Db.Logout(st).authUser)
  {
  }

  const DefaultImage: string := "https://images.unsplash.com/photo-1501281668745-f7f57925c3b4?auto=format&fit=crop&q=80&w=600"

  /** The creation form. */
  datatype EventForm = EventForm(
    title: string,
    date: string,
    time: string,
    kind: EventType,
    location: string,
    image: string,
    description: string)

  /** The form as it opens, and as it is reset after each creation. */
  function BlankForm(): (f: EventForm)
    ensures f.kind == Meetup && f.image == DefaultImage && f.title == ""
  {
    EventForm("", "", "", Meetup, "", DefaultImage, "")
  }

  /** Creating from the untouched form gives an untitled meetup with the default image. */
  lemma BlankFormCreatesMeetup(st: Db.Store, user: Option<User>, now: nat)
    ensures var e := CreateEvent(st, user, BlankForm(), now).events[0];
      e.kind == Meetup && e.image == DefaultImage && e.title == "" && e.interestedCount == Some(0)
  {
  }

  /** `handleCreateEvent`: the form becomes an event in front of the store's events, with no one interested yet. */
  function CreateEvent(st: Db.Store, user: Option<User>, form: EventForm, now: nat): (r: Db.Store)
    ensures |r.events| == |st.events| + 1 && r.events[1..] == st.events
    ensures r.events[0].id == Db.NewEventId(now)
    ensures r.events[0].interestedCount == Some(0)
    ensures r.events[0].organizer == Some(NameOr(user, "RUET Community"))
    ensures r.events[0].title == form.title && r.events[0].kind == form.kind && r.events[0].location == form.location
    ensures r.events[0].date == form.date && r.events[0].time == form.time && r.events[0].image == form.image
    ensures r.events[0].description == Some(form.description)
    ensures r == st.(events := r.events)
  {
    var e := Event("", form.title, form.date, form.time, form.kind, form.location, form.image,
                   Some(form.description), Some(NameOr(user, "RUET Community")), Some(0));
    Db.AddEvent(st, e, now)
  }

  /**
   * Whoever is allowed to create an event is credited as its organizer by
   * name; an event is never stored without an organizer name.
   */
  lemma CreatorIsOrganizer(st: Db.Store, user: Option<User>, form: EventForm, now: nat)
    ensures CreateEvent(st, user, form, now).events[0].organizer.value != ""
    ensures CanCreateEvent(user) && user.value.name != "" ==>
      CreateEvent(st, user, form, now).events[0].organizer == Some(user.value.name)
  {
    NameOrNonEmpty(user, "RUET Community");
  }
}
