/** The app.py handlers that change the store: joining and leaving an event
    (the form routes and their /api twins run the same checks), creating,
    editing and deleting an event, and adding and deleting comments. The
    caller's uid stands for session['uid'] and `today` for
    datetime.now().date(); flash messages, redirects and JSON bodies are
    reduced to the outcome they report. */
module Routes {
  import opened Common
  import opened Tables
  import opened Validation
  import Forum
  import Form

  function Min(a: int, b: int): int { if a <= b then a else b }
  function Max(a: int, b: int): int { if a <= b then b else a }

  // ---------------------------------------------------------------------
  // Joining (join_event, app.py:335-369; api_join_event, app.py:935-968)
  // ---------------------------------------------------------------------

  datatype JoinResult = EventNotFound | PastEvent | AlreadyJoined | Joined | EventFull | JoinError

  /** add_participant's answer as the handler reports it: True is success,
      False "Event is full", an exception the handler's own error message. */
  function JoinAnswer(a: Forum.AddOutcome): JoinResult {
    match a
    case Added => Joined
    case Refused => EventFull
    case Raised => JoinError
  }

  /** The checks in the handler's order: the event exists, its date is not
      before today (joining on the day itself is allowed), the user has not
      joined yet; then add_participant decides between joined and full. */
  function JoinSpec(events: map<EventId, Event>, participants: set<(EventId, UserId)>,
                    eid: EventId, uid: UserId, today: Day): (r: JoinResult)
    ensures r == Joined <==>
              eid in events && today <= events[eid].date && uid !in Members(participants, eid)
              && Count(participants, eid) < events[eid].cap
    ensures r == EventFull <==>
              eid in events && today <= events[eid].date && uid !in Members(participants, eid)
              && Count(participants, eid) >= events[eid].cap
    ensures r == EventNotFound <==> eid !in events
    ensures r == PastEvent <==> eid in events && events[eid].date < today
    ensures r == AlreadyJoined <==>
              eid in events && today <= events[eid].date && uid in Members(participants, eid)
    ensures r != JoinError
  {
    if eid !in events then EventNotFound
    else if events[eid].date < today then PastEvent
    else if uid in Members(participants, eid) then AlreadyJoined
    else
      MembersMeaning(participants, eid, uid);
      JoinAnswer(Forum.AddDecision(events, participants, eid, uid))
  }

  /** The participants after a join request. */
  function JoinEffect(events: map<EventId, Event>, participants: set<(EventId, UserId)>,
                      eid: EventId, uid: UserId, today: Day): set<(EventId, UserId)> {
    if JoinSpec(events, participants, eid, uid, today) == Joined then participants + {(eid, uid)}
    else participants
  }

  /** A successful join adds one member, never takes the count above the
      cap, and changes no other event. */
  lemma JoinedStaysWithinCap(events: map<EventId, Event>, participants: set<(EventId, UserId)>,
                             eid: EventId, uid: UserId, today: Day, e: EventId)
    requires JoinSpec(events, participants, eid, uid, today) == Joined
    ensures Count(JoinEffect(events, participants, eid, uid, today), eid) == Count(participants, eid) + 1
    ensures Count(JoinEffect(events, participants, eid, uid, today), eid) <= events[eid].cap
    ensures e != eid ==> Members(JoinEffect(events, participants, eid, uid, today), e) == Members(participants, e)
  {
    MembersMeaning(participants, eid, uid);
    Forum.AddedStaysWithinCap(events, participants, eid, uid, e);
  }

  /** An event with capacity 0 can never be joined. */
  lemma ZeroCapacityNeverJoined(events: map<EventId, Event>, participants: set<(EventId, UserId)>,
                                eid: EventId, uid: UserId, today: Day)
    requires eid in events && events[eid].cap == 0
    ensures JoinSpec(events, participants, eid, uid, today) != Joined
    ensures JoinEffect(events, participants, eid, uid, today) == participants
  {
  }

  /** join_event / api_join_event. */
  method JoinEvent(db: Database, uid: UserId, eid: EventId, today: Day) returns (r: JoinResult)
    requires db.Valid()
    modifies db
    ensures db.Valid()
    ensures r == JoinSpec(old(db.events), old(db.participants), eid, uid, today)
    ensures db.participants == JoinEffect(old(db.events), old(db.participants), eid, uid, today)
    ensures db.events == old(db.events) && db.forums == old(db.forums) && db.comments == old(db.comments)
  {
    var info := Forum.GetEventCapacityInfo(db, eid);
    if info.None? {
      return EventNotFound;
    }
    if info.value.date < today {
      return PastEvent;
    }
    var already := Forum.IsUserParticipant(db, eid, uid);
    if already {
      return AlreadyJoined;
    }
    MembersMeaning(db.participants, eid, uid);
    var added := Forum.AddParticipant(db, eid, uid);
    r := JoinAnswer(added);
  }

  // ---------------------------------------------------------------------
  // Leaving (leave_event, app.py:373-393; api_leave_event, app.py:972-990)
  // ---------------------------------------------------------------------

  datatype LeaveResult = CreatorCannotLeave | LeftEvent

  /** `if creator_uid and creator_uid == session['uid']`: a creator uid of 0
      is falsy and does not block. A missing event or a user who never
      joined still reads as a successful leave. */
  function LeaveSpec(events: map<EventId, Event>, eid: EventId, uid: UserId): (r: LeaveResult)
    ensures r == CreatorCannotLeave <==> eid in events && events[eid].addedBy == uid && uid != 0
  {
    if eid in events && events[eid].addedBy != 0 && events[eid].addedBy == uid then CreatorCannotLeave
    else LeftEvent
  }

  function LeaveEffect(events: map<EventId, Event>, participants: set<(EventId, UserId)>,
                       eid: EventId, uid: UserId): set<(EventId, UserId)> {
    if LeaveSpec(events, eid, uid) == CreatorCannotLeave then participants
    else participants - {(eid, uid)}
  }

  /** Leaving never costs the creator their place, whoever asks, and never
      changes another event. */
  lemma LeaveKeepsCreator(events: map<EventId, Event>, participants: set<(EventId, UserId)>,
                          eid: EventId, uid: UserId, e: EventId)
    requires eid in events && events[eid].addedBy != 0
    ensures events[eid].addedBy in Members(participants, eid) ==>
              events[eid].addedBy in Members(LeaveEffect(events, participants, eid, uid), eid)
    ensures e != eid ==> Members(LeaveEffect(events, participants, eid, uid), e) == Members(participants, e)
  {
    MembersAfterDelete(participants, eid, uid, eid);
    MembersAfterDelete(participants, eid, uid, e);
  }

  /** Leaving undoes joining for everyone but the creator. */
  lemma LeaveUndoesJoin(events: map<EventId, Event>, participants: set<(EventId, UserId)>,
                        eid: EventId, uid: UserId, today: Day)
    requires LeaveSpec(events, eid, uid) == LeftEvent
    requires JoinSpec(events, participants, eid, uid, today) == Joined
    ensures LeaveEffect(events, JoinEffect(events, participants, eid, uid, today), eid, uid) == participants
  {
    MembersMeaning(participants, eid, uid);
    assert (eid, uid) !in participants;
  }

  /** Asking to leave twice is the same as asking once. */
  lemma LeaveIdempotent(events: map<EventId, Event>, participants: set<(EventId, UserId)>,
                        eid: EventId, uid: UserId)
    ensures LeaveEffect(events, LeaveEffect(events, participants, eid, uid), eid, uid)
            == LeaveEffect(events, participants, eid, uid)
  {
  }

  /** leave_event / api_leave_event. */
  method LeaveEvent(db: Database, uid: UserId, eid: EventId) returns (r: LeaveResult)
    requires db.Valid()
    modifies db
    ensures db.Valid()
    ensures r == LeaveSpec(old(db.events), eid, uid)
    ensures db.participants == LeaveEffect(old(db.events), old(db.participants), eid, uid)
    ensures db.events == old(db.events) && db.forums == old(db.forums) && db.comments == old(db.comments)
  {
    var creator := Forum.GetEventCreator(db, eid);
    if creator.Some? && creator.value != 0 && creator.value == uid {
      return CreatorCannotLeave;
    }
    Forum.RemoveParticipant(db, eid, uid);
    r := LeftEvent;
  }

  // ---------------------------------------------------------------------
  // Any sequence of joins and leaves
  // ---------------------------------------------------------------------

  datatype Request = JoinRequest(eid: EventId, uid: UserId) | LeaveRequest(eid: EventId, uid: UserId)

  function Apply(events: map<EventId, Event>, participants: set<(EventId, UserId)>,
                 req: Request, today: Day): set<(EventId, UserId)> {
    match req
    case JoinRequest(e, u) => JoinEffect(events, participants, e, u, today)
    case LeaveRequest(e, u) => LeaveEffect(events, participants, e, u)
  }

  /** The participants after the requests, handled one at a time. */
  function Run(events: map<EventId, Event>, participants: set<(EventId, UserId)>,
               reqs: seq<Request>, today: Day): set<(EventId, UserId)>
    decreases |reqs|
  {
    if reqs == [] then participants
    else Run(events, Apply(events, participants, reqs[0], today), reqs[1..], today)
  }

  lemma ApplyWithinBound(events: map<EventId, Event>, participants: set<(EventId, UserId)>,
                         req: Request, today: Day, e: EventId)
    requires e in events
    ensures Count(Apply(events, participants, req, today), e) <= Max(Count(participants, e), events[e].cap)
  {
    match req
    case JoinRequest(j, u) =>
      if JoinSpec(events, participants, j, u, today) == Joined {
        JoinedStaysWithinCap(events, participants, j, u, today, e);
      }
    case LeaveRequest(l, u) =>
      MembersAfterDelete(participants, l, u, e);
  }

  /** Joins and leaves never push an event's count above the larger of its
      starting count and its cap: an event that starts within its cap stays
      within it. (Creating an event and editing its cap are not requests
      here; they can leave the count above the cap.) */
  lemma {:induction false} RunNeverExceedsCap(events: map<EventId, Event>, participants: set<(EventId, UserId)>,
                                              reqs: seq<Request>, today: Day, e: EventId)
    requires e in events
    ensures Count(Run(events, participants, reqs, today), e) <= Max(Count(participants, e), events[e].cap)
    decreases |reqs|
  {
    if reqs != [] {
      var next := Apply(events, participants, reqs[0], today);
      ApplyWithinBound(events, participants, reqs[0], today, e);
      RunNeverExceedsCap(events, next, reqs[1..], today, e);
    }
  }

  /** The answers to distinct users asking in turn to join the same event. */
  function JoinAll(events: map<EventId, Event>, participants: set<(EventId, UserId)>,
                   eid: EventId, users: seq<UserId>, today: Day): seq<JoinResult>
    decreases |users|
  {
    if users == [] then []
    else [JoinSpec(events, participants, eid, users[0], today)]
         + JoinAll(events, JoinEffect(events, participants, eid, users[0], today), eid, users[1..], today)
  }

  function Repeat(r: JoinResult, n: nat): seq<JoinResult> {
    if n == 0 then [] else [r] + Repeat(r, n - 1)
  }

  predicate AllDistinct(users: seq<UserId>) {
    forall i, j | 0 <= i < j < |users| :: users[i] != users[j]
  }

  predicate NoneJoined(participants: set<(EventId, UserId)>, eid: EventId, users: seq<UserId>) {
    forall i | 0 <= i < |users| :: users[i] !in Members(participants, eid)
  }

  /** After the first user of a queue of distinct new users joins, the rest
      are still distinct and new. */
  lemma QueueStaysFresh(participants: set<(EventId, UserId)>, eid: EventId, users: seq<UserId>)
    requires users != [] && AllDistinct(users) && NoneJoined(participants, eid, users)
    ensures AllDistinct(users[1..])
    ensures NoneJoined(participants + {(eid, users[0])}, eid, users[1..])
  {
    MembersAfterInsert(participants, eid, users[0], eid);
    forall i | 0 <= i < |users| - 1 ensures users[1..][i] !in Members(participants + {(eid, users[0])}, eid) {
      assert users[1..][i] == users[i + 1] && users[0] != users[i + 1];
    }
  }

  /** Once an event is full, every new user in a queue is told so and
      nobody is added. */
  lemma {:induction false} FullQueueIsRefused(events: map<EventId, Event>, participants: set<(EventId, UserId)>,
                                               eid: EventId, users: seq<UserId>, today: Day)
    requires eid in events && today <= events[eid].date
    requires Count(participants, eid) >= events[eid].cap
    requires NoneJoined(participants, eid, users)
    ensures JoinAll(events, participants, eid, users, today) == Repeat(EventFull, |users|)
    decreases |users|
  {
    if users != [] {
      var rest := users[1..];
      assert users[0] !in Members(participants, eid);
      assert JoinSpec(events, participants, eid, users[0], today) == EventFull;
      assert JoinEffect(events, participants, eid, users[0], today) == participants;
      forall i | 0 <= i < |rest| ensures rest[i] !in Members(participants, eid) {
        assert rest[i] == users[i + 1];
      }
      FullQueueIsRefused(events, participants, eid, rest, today);
    }
  }

  /** With k places left, the first k of a queue of new users join and every
      later one is told the event is full. */
  lemma {:induction false} DistinctJoinersFillTheCap(events: map<EventId, Event>, participants: set<(EventId, UserId)>,
                                                     eid: EventId, users: seq<UserId>, today: Day)
    requires eid in events && today <= events[eid].date
    requires Count(participants, eid) <= events[eid].cap
    requires AllDistinct(users) && NoneJoined(participants, eid, users)
    ensures var k := Min(|users|, events[eid].cap - Count(participants, eid));
            JoinAll(events, participants, eid, users, today) == Repeat(Joined, k) + Repeat(EventFull, |users| - k)
    decreases |users|
  {
    if users != [] {
      if Count(participants, eid) < events[eid].cap {
        var u := users[0];
        var next := JoinEffect(events, participants, eid, u, today);
        var rest := users[1..];
        var k := Min(|users|, events[eid].cap - Count(participants, eid));
        assert u !in Members(participants, eid);
        assert JoinSpec(events, participants, eid, u, today) == Joined;
        JoinedStaysWithinCap(events, participants, eid, u, today, eid);
        QueueStaysFresh(participants, eid, users);
        DistinctJoinersFillTheCap(events, next, eid, rest, today);
        assert JoinAll(events, participants, eid, users, today) == [Joined] + JoinAll(events, next, eid, rest, today);
        assert Min(|rest|, events[eid].cap - Count(next, eid)) == k - 1;
        assert Repeat(Joined, k) == [Joined] + Repeat(Joined, k - 1);
      } else {
        FullQueueIsRefused(events, participants, eid, users, today);
      }
    }
  }

  // ---------------------------------------------------------------------
  // Creating an event (create_event, app.py:137-226)
  // ---------------------------------------------------------------------

  datatype CreateResult = FormRejected | InsertRaised | Created(eid: EventId)

  /** The event row an accepted form describes; `s` holds the stripped
      fields and `date` the day MySQL stores for the date text. */
  function FormRow(s: EventForm, date: Day, uid: UserId, flexible: bool): Event
    requires (s.cap == "" || IsDigits(s.cap)) && IsDigits(s.cid)
  {
    Event(s.title, Some(s.start), Some(s.end), date, s.desc, uid, s.city, s.state,
          ParseCapacity(s.cap).n, flexible, DigitsValue(s.cid))
  }

  /** The insert-and-join step of create_event (app.py:215-223): the event
      row with its forum, then the creator as its one participant, with no
      capacity check. */
  method InsertWithCreator(db: Database, uid: UserId, row: Event) returns (eid: EventId)
    requires db.Valid()
    requires row.start.Some? && row.start.value != [] && row.end.Some? && row.end.value != []
    requires row.addedBy == uid
    modifies db
    ensures db.Valid()
    ensures eid !in old(db.events)
    ensures db.events == old(db.events)[eid := row]
    ensures db.participants == old(db.participants) + {(eid, uid)}
    ensures Members(db.participants, eid) == {uid}
    ensures |ForumsOf(db.forums, eid)| == 1
    ensures db.comments == old(db.comments)
  {
    NoMembersOutsideEvents(db.participants, db.events, db.nextEid);
    eid := Form.InsertEvent(db, row.title, row.date, row.start.value, row.end.value, row.desc, uid,
                            row.city, row.state, row.cap, row.flexible, row.cid);
    var _ := Form.AddParticipant(db, eid, uid);
    MembersAfterInsert(old(db.participants), eid, uid, eid);
  }

  /** A rejected form changes nothing. An accepted one inserts the stripped
      fields as a new event with its forum and makes the creator its one
      participant: the count is 1 even when the cap is 0. `date` is the day
      MySQL makes of the stripped date text, or None when it refuses that
      text: the INSERT then raises out of create_event, which has no try,
      and nothing is stored. */
  method CreateEvent(db: Database, uid: UserId, f: EventForm, date: Option<Day>, flexible: bool)
    returns (r: CreateResult)
    requires db.Valid()
    modifies db
    ensures db.Valid()
    ensures r == FormRejected <==> !Acceptable(f)
    ensures r == InsertRaised <==> Acceptable(f) && date.None?
    ensures !r.Created? ==>
              db.events == old(db.events) && db.participants == old(db.participants)
              && db.forums == old(db.forums) && db.comments == old(db.comments)
    ensures r.Created? ==>
              && Acceptable(f) && date.Some?
              && r.eid !in old(db.events)
              && db.events == old(db.events)[r.eid := FormRow(Stripped(f), date.value, uid, flexible)]
              && db.participants == old(db.participants) + {(r.eid, uid)}
              && Members(db.participants, r.eid) == {uid}
              && |ForumsOf(db.forums, r.eid)| == 1
              && db.comments == old(db.comments)
  {
    var c := CheckEventForm(f);
    if c.error {
      return FormRejected;
    }
    if date.None? {
      return InsertRaised;
    }
    var s := c.fields;
    var row := Event(s.title, Form.BlankToNone(s.start), Form.BlankToNone(s.end), date.value, s.desc, uid,
                     s.city, s.state, c.cap.value, flexible, c.cid.value);
    assert row == FormRow(s, date.value, uid, flexible);
    var eid := InsertWithCreator(db, uid, row);
    r := Created(eid);
  }

  // ---------------------------------------------------------------------
  // Editing an event (edit_event, app.py:395-503)
  // ---------------------------------------------------------------------

  datatype EditResult = EditNotFound | EditNotOwner | EditRejected | Updated

  /** Only the creator may edit; an accepted form overwrites every column
      but the creator. event.update_event is not part of this model; its
      evident effect is modelled. The new cap is not compared with the
      current count, and nobody is removed. */
  method EditEvent(db: Database, uid: UserId, eid: EventId, f: EventForm, date: Day, flexible: bool)
    returns (r: EditResult)
    requires db.Valid()
    modifies db
    ensures db.Valid()
    ensures r == EditNotFound <==> eid !in old(db.events)
    ensures r == EditNotOwner <==> eid in old(db.events) && old(db.events)[eid].addedBy != uid
    ensures r == EditRejected <==> eid in old(db.events) && old(db.events)[eid].addedBy == uid && !Acceptable(f)
    ensures r != Updated ==> db.events == old(db.events)
    ensures r == Updated ==>
              Acceptable(f) && db.events == old(db.events)[eid := FormRow(Stripped(f), date, uid, flexible)]
    ensures db.participants == old(db.participants) && db.forums == old(db.forums)
    ensures db.comments == old(db.comments)
  {
    var creator := Forum.GetEventCreator(db, eid);
    var permission := CheckOwner(creator, uid);
    if permission == NotFound {
      return EditNotFound;
    }
    if permission == NotOwner {
      return EditNotOwner;
    }
    var c := CheckEventForm(f);
    if c.error {
      return EditRejected;
    }
    var s := c.fields;
    var row := db.events[eid];
    row := row.(title := s.title, desc := s.desc, date := date,
                start := Some(s.start), end := Some(s.end), city := s.city, state := s.state,
                cap := c.cap.value, flexible := flexible, cid := c.cid.value);
    assert row == FormRow(s, date, uid, flexible);
    UpdateEvent(db, eid, row);
    r := Updated;
  }

  /** The UPDATE of an existing event row. */
  method UpdateEvent(db: Database, eid: EventId, row: Event)
    requires db.Valid() && eid in db.events
    modifies db
    ensures db.Valid()
    ensures db.events == old(db.events)[eid := row]
    ensures db.participants == old(db.participants) && db.forums == old(db.forums)
    ensures db.comments == old(db.comments)
  {
    db.events := db.events[eid := row];
  }

  /** An edit can leave more participants than places: a form whose
      capacity is "0" is acceptable, and the row EditEvent writes for it
      (its Updated case) has cap 0, below the count of an event that
      already has members; nobody is removed. */
  lemma EditCanOvershootCap(f: EventForm, date: Day, uid: UserId, flexible: bool,
                            participants: set<(EventId, UserId)>, eid: EventId)
    requires Acceptable(f) && Trim(f.cap) == "0" && Count(participants, eid) > 0
    ensures FormRow(Stripped(f), date, uid, flexible).cap == 0 < Count(participants, eid)
  {
    assert Stripped(f).cap == "0";
    assert DigitsValue("0") == 0;
  }

  // ---------------------------------------------------------------------
  // Deleting an event (delete_event, app.py:511-537; delete_event_api, app.py:909-931)
  // ---------------------------------------------------------------------

  datatype DeleteResult = DeleteNotFound | DeleteNotOwner | Deleted

  /** The comments outside the given forums, in table order. */
  function CommentsOutside(cs: seq<Comment>, fids: set<ForumId>): (r: seq<Comment>)
    ensures forall c :: c in r <==> c in cs && c.fid !in fids
  {
    if cs == [] then []
    else (if cs[0].fid in fids then [] else [cs[0]]) + CommentsOutside(cs[1..], fids)
  }

  lemma {:induction false} CommentsOutsideKeepsOrder(cs: seq<Comment>, fids: set<ForumId>)
    requires IdsIncreasing(cs)
    ensures IdsIncreasing(CommentsOutside(cs, fids))
  {
    if cs != [] {
      IdsIncreasingTail(cs);
      CommentsOutsideKeepsOrder(cs[1..], fids);
      var rest := CommentsOutside(cs[1..], fids);
      forall k | 0 <= k < |rest| ensures cs[0].commId < rest[k].commId {
        assert rest[k] in cs[1..];
      }
    }
  }

  /** Only the creator may delete. event.delete_event_by_id is not part of
      this model; its evident effect is modelled: the event row goes, and
      the foreign keys cascade to its participants, its forum and that
      forum's comments. */
  method DeleteEvent(db: Database, uid: UserId, eid: EventId) returns (r: DeleteResult)
    requires db.Valid()
    modifies db
    ensures db.Valid()
    ensures r == DeleteNotFound <==> eid !in old(db.events)
    ensures r == DeleteNotOwner <==> eid in old(db.events) && old(db.events)[eid].addedBy != uid
    ensures r != Deleted ==>
              db.events == old(db.events) && db.participants == old(db.participants)
              && db.forums == old(db.forums) && db.comments == old(db.comments)
    ensures r == Deleted ==>
              && db.events == old(db.events) - {eid}
              && db.participants == (set p | p in old(db.participants) && p.0 != eid)
              && db.forums == (map f | f in old(db.forums) && old(db.forums)[f] != eid :: old(db.forums)[f])
              && db.comments == CommentsOutside(old(db.comments), ForumsOf(old(db.forums), eid))
  {
    var creator := Forum.GetEventCreator(db, eid);
    var permission := CheckOwner(creator, uid);
    if permission == NotFound {
      return DeleteNotFound;
    }
    if permission == NotOwner {
      return DeleteNotOwner;
    }
    DeleteEventRows(db, eid);
    r := Deleted;
  }

  /** The DELETE of an event row with its cascades. */
  method DeleteEventRows(db: Database, eid: EventId)
    requires db.Valid()
    modifies db
    ensures db.Valid()
    ensures db.events == old(db.events) - {eid}
    ensures db.participants == (set p | p in old(db.participants) && p.0 != eid)
    ensures db.forums == (map f | f in old(db.forums) && old(db.forums)[f] != eid :: old(db.forums)[f])
    ensures db.comments == CommentsOutside(old(db.comments), ForumsOf(old(db.forums), eid))
  {
    var gone := ForumsOf(db.forums, eid);
    var comments := CommentsOutside(db.comments, gone);
    CommentsOutsideKeepsOrder(db.comments, gone);
    forall i | 0 <= i < |comments| ensures comments[i].commId < db.nextCommId {
      assert comments[i] in db.comments;
    }
    var events := db.events - {eid};
    var participants := set p | p in db.participants && p.0 != eid;
    assert forall p | p in participants :: p.0 in events;
    var forums := map f | f in db.forums && db.forums[f] != eid :: db.forums[f];
    assert forall f | f in forums :: f < db.nextFid && forums[f] in events;
    db.comments, db.forums, db.participants, db.events := comments, forums, participants, events;
  }

  // ---------------------------------------------------------------------
  // Comments (api_add_comment, app.py:1039-1068; delete_comment, app.py:541-565)
  // ---------------------------------------------------------------------

  datatype CommentResult = CommentEmpty | ForumNotFound | CommentAdded(commId: CommentId)

  /** The stripped text must not be empty and the event must have a forum
      (`if not fid`: a forum id of 0 counts as missing); the stripped text is
      stored, posted at `now`. */
  method ApiAddComment(db: Database, uid: UserId, eid: EventId, text: string, now: int)
    returns (r: CommentResult)
    requires db.Valid()
    modifies db
    ensures db.Valid()
    ensures r == CommentEmpty <==> Trim(text) == []
    ensures r == ForumNotFound <==> Trim(text) != [] && (ForumsOf(db.forums, eid) == {} || ForumsOf(db.forums, eid) == {0})
    ensures r.CommentAdded? ==>
              exists fid :: ForumsOf(db.forums, eid) == {fid} && fid != 0
                && db.comments == old(db.comments) + [Comment(r.commId, Trim(text), uid, fid, None, now)]
    ensures !r.CommentAdded? ==> db.comments == old(db.comments)
    ensures db.events == old(db.events) && db.participants == old(db.participants)
    ensures db.forums == old(db.forums)
  {
    var body := Trim(text);
    if body == [] {
      return CommentEmpty;
    }
    var fid := Forum.GetForumIdByEvent(db, eid);
    if fid.None? || fid.value == 0 {
      return ForumNotFound;
    }
    var commId := Forum.InsertComment(db, body, uid, fid.value, now);
    r := CommentAdded(commId);
  }

  /** The row with the given id, if any. forum.get_comment_info is not part
      of this model; the lookup it evidently performs is modelled. */
  function FindComment(cs: seq<Comment>, id: CommentId): (r: Option<Comment>)
    ensures r.None? <==> forall c | c in cs :: c.commId != id
    ensures r.Some? ==> r.value in cs && r.value.commId == id
  {
    if cs == [] then None
    else if cs[0].commId == id then Some(cs[0])
    else FindComment(cs[1..], id)
  }

  /** delete_comment / api_delete_comment: only the author may delete. */
  method DeleteComment(db: Database, uid: UserId, id: CommentId) returns (r: Permission)
    requires db.Valid()
    modifies db
    ensures db.Valid()
    ensures r == NotFound <==> forall c | c in old(db.comments) :: c.commId != id
    ensures r == Permitted <==> exists c | c in old(db.comments) :: c.commId == id && c.addedBy == uid
    ensures r == Permitted ==> db.comments == Forum.WithoutComment(old(db.comments), id)
    ensures r != Permitted ==> db.comments == old(db.comments)
    ensures db.events == old(db.events) && db.participants == old(db.participants)
    ensures db.forums == old(db.forums)
  {
    var row := FindComment(db.comments, id);
    var owner := if row.Some? then Some(row.value.addedBy) else None;
    r := CheckOwner(owner, uid);
    if r == Permitted {
      Forum.DeleteCommentById(db, id);
    }
  }
}
