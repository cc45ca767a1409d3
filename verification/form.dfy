/** form.py: the two inserts behind creating an event. The date arrives as
    the day MySQL stores for the submitted text. */
module Form {
  import opened Common
  import opened Tables

  /** `start_str or None`: the empty string becomes NULL, anything else is
      kept as it is. */
  function BlankToNone(s: string): (r: Option<string>)
    ensures r.None? <==> s == ""
    ensures r.Some? ==> r.value == s
  {
    if s == "" then None else Some(s)
  }

  /** Reading a time column back as text: NULL reads as the empty string. */
  function NoneToBlank(o: Option<string>): string {
    match o
    case None => ""
    case Some(s) => s
  }

  /** Storing loses nothing: every text reads back as itself, and every
      stored value other than an empty string is what storing its text gives. */
  lemma BlankToNoneRoundTrip(s: string, o: Option<string>)
    ensures NoneToBlank(BlankToNone(s)) == s
    ensures o != Some("") ==> BlankToNone(NoneToBlank(o)) == o
  {
  }

  /** insert_event: inserts the event row with the next AUTO_INCREMENT eid,
      then the forum row for it; returns the eid. */
  method InsertEvent(db: Database, title: string, date: Day, start: string, end: string,
                     desc: string, uid: UserId, city: string, state: string, cap: int,
                     flexible: bool, cid: nat) returns (eid: EventId)
    requires db.Valid()
    modifies db
    ensures db.Valid()
    ensures eid !in old(db.events)
    ensures db.events == old(db.events)[eid := Event(title, BlankToNone(start), BlankToNone(end),
                                                     date, desc, uid, city, state, cap, flexible, cid)]
    ensures old(db.nextFid) !in old(db.forums)
    ensures db.forums == old(db.forums)[old(db.nextFid) := eid]
    ensures ForumsOf(db.forums, eid) == {old(db.nextFid)}
    ensures db.participants == old(db.participants) && db.comments == old(db.comments)
  {
    eid := db.nextEid;
    db.events := db.events[eid := Event(title, BlankToNone(start), BlankToNone(end),
                                        date, desc, uid, city, state, cap, flexible, cid)];
    db.nextEid := db.nextEid + 1;

    var fid := db.nextFid;
    assert ForumsOf(db.forums, eid) == {};
    db.forums := db.forums[fid := eid];
    db.nextFid := db.nextFid + 1;
    assert fid in ForumsOf(db.forums, eid);
  }

  /** add_participant: a bare INSERT, with no capacity, date or duplicate
      check. The insert raises (and nothing changes) when the pair already
      exists or the event does not. */
  method AddParticipant(db: Database, eid: EventId, uid: UserId) returns (raised: bool)
    requires db.Valid()
    modifies db
    ensures db.Valid()
    ensures raised <==> eid !in old(db.events) || (eid, uid) in old(db.participants)
    ensures db.participants == if raised then old(db.participants) else old(db.participants) + {(eid, uid)}
    ensures db.events == old(db.events) && db.forums == old(db.forums) && db.comments == old(db.comments)
  {
    if eid !in db.events || (eid, uid) in db.participants {
      return true;
    }
    db.participants := db.participants + {(eid, uid)};
    raised := false;
  }
}
