/** The action area of the calendar's event panel (static/calendar.js,
    openEventPanel) and the flags the server computes for it
    (app.py, get_event_details). */
module Panel {
  import opened Common
  import opened Tables
  import Routes

  /** What the panel shows: each flag is one button or message. */
  datatype Actions = Actions(
    loginPrompt: bool, edit: bool, delete: bool, join: bool, leave: bool,
    passedMessage: bool, fullMessage: bool)

  const Nothing := Actions(false, false, false, false, false, false, false)

  /** Everything hidden first, then one branch switches on what applies. */
  function PanelActions(loggedIn: bool, isCreator: bool, isParticipant: bool,
                        hasPassed: bool, current: int, cap: int): (a: Actions)
    ensures !loggedIn ==> a == Nothing.(loginPrompt := true)
    ensures loggedIn && isCreator ==> a == Nothing.(edit := true, delete := true)
    ensures loggedIn && !isCreator && isParticipant ==> a == Nothing.(leave := true)
    ensures a.join <==> loggedIn && !isCreator && !isParticipant && !hasPassed && current < cap
    ensures a.passedMessage <==> loggedIn && !isCreator && !isParticipant && hasPassed
    ensures a.fullMessage <==> loggedIn && !isCreator && !isParticipant && !hasPassed && current >= cap
  {
    if !loggedIn then Nothing.(loginPrompt := true)
    else if isCreator then Nothing.(edit := true, delete := true)
    else
      var isFull := current >= cap;
      if isParticipant then Nothing.(leave := true)
      else if hasPassed then Nothing.(passedMessage := true)
      else if !isFull then Nothing.(join := true)
      else Nothing.(fullMessage := true)
  }

  function Shown(b: bool): nat { if b then 1 else 0 }

  /** How many of the buttons and messages are visible. */
  function Visible(a: Actions): nat {
    Shown(a.loginPrompt) + Shown(a.edit) + Shown(a.delete) + Shown(a.join)
    + Shown(a.leave) + Shown(a.passedMessage) + Shown(a.fullMessage)
  }

  /** A logged-in visitor who did not create the event sees exactly one of
      leave, 'passed', join and 'full'; everyone sees at least one thing. */
  lemma OneStatusForVisitors(loggedIn: bool, isCreator: bool, isParticipant: bool,
                             hasPassed: bool, current: int, cap: int)
    ensures var a := PanelActions(loggedIn, isCreator, isParticipant, hasPassed, current, cap);
            Visible(a) >= 1
            && (loggedIn && !isCreator ==>
                  Visible(a) == 1 && !a.edit && !a.delete && !a.loginPrompt)
  {
  }

  /** The flags get_event_details sends (app.py:867-877) for the visitor
      `uid` (None when logged out); None when the event does not exist. */
  function ServerPanel(events: map<EventId, Event>, participants: set<(EventId, UserId)>,
                       eid: EventId, uid: Option<UserId>, today: Day): (a: Option<Actions>)
    ensures a.None? <==> eid !in events
  {
    if eid !in events then None
    else
      var e := events[eid];
      var loggedIn := uid.Some?;
      var isCreator := loggedIn && uid.value == e.addedBy;
      var isParticipant := loggedIn && uid.value in Members(participants, eid);
      Some(PanelActions(loggedIn, isCreator, isParticipant, e.date < today,
                        Count(participants, eid), e.cap))
  }

  /** For a logged-in visitor who did not create the event, the panel tells
      in advance what the join handler will answer: join is offered exactly
      when joining succeeds and 'full' exactly when it is refused as full.
      The two check in different orders: the panel tests membership before
      the date, the handler the date first, so a member of a past event is
      offered leave while the handler would answer "past". */
  lemma PanelPredictsJoin(events: map<EventId, Event>, participants: set<(EventId, UserId)>,
                          eid: EventId, uid: UserId, today: Day)
    requires eid in events && events[eid].addedBy != uid
    ensures var a := ServerPanel(events, participants, eid, Some(uid), today).value;
            var j := Routes.JoinSpec(events, participants, eid, uid, today);
            && (a.join <==> j == Routes.Joined)
            && (a.fullMessage <==> j == Routes.EventFull)
            && (a.passedMessage ==> j == Routes.PastEvent)
            && (a.leave <==> uid in Members(participants, eid))
            && (a.leave && events[eid].date >= today ==> j == Routes.AlreadyJoined)
  {
    var j := Routes.JoinSpec(events, participants, eid, uid, today);
    if events[eid].date < today {
      assert j == Routes.PastEvent;
    } else if uid in Members(participants, eid) {
      assert j == Routes.AlreadyJoined;
    }
  }

  /** A visitor who is not logged in is only asked to log in. */
  lemma LoggedOutSeesOnlyLogin(events: map<EventId, Event>, participants: set<(EventId, UserId)>,
                               eid: EventId, today: Day)
    requires eid in events
    ensures ServerPanel(events, participants, eid, None, today) == Some(Nothing.(loginPrompt := true))
  {
  }
}
