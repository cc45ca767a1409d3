/** The part of the MySQL schema the core reads and writes: events,
    participants, forum and comments, with their auto-increment counters.
    SQL text, connections and commits are not modelled; each statement
    becomes one update of these fields. */
module Tables {
  import opened Common

  type EventId = nat
  type UserId = nat
  type ForumId = nat
  type CommentId = nat
  /** A calendar day, as a Python date ordinal. */
  type Day = int

  /** A row of `events`. `start` and `end` are NULL (None) when blank. */
  datatype Event = Event(
    title: string, start: Option<string>, end: Option<string>, date: Day,
    desc: string, addedBy: UserId, city: string, state: string, cap: int,
    flexible: bool, cid: nat)

  /** A row of `comments`; `parent` is parent_commId, `postedAt` the NOW()
      of its insertion, in seconds. */
  datatype Comment = Comment(
    commId: CommentId, text: string, addedBy: UserId, fid: ForumId,
    parent: Option<CommentId>, postedAt: int)

  /** The users who joined event `eid`: COUNT(p.uid) in the capacity query
      counts exactly these. */
  function Members(participants: set<(EventId, UserId)>, eid: EventId): set<UserId> {
    set p | p in participants && p.0 == eid :: p.1
  }

  function Count(participants: set<(EventId, UserId)>, eid: EventId): nat {
    |Members(participants, eid)|
  }

  lemma MembersMeaning(participants: set<(EventId, UserId)>, eid: EventId, uid: UserId)
    ensures uid in Members(participants, eid) <==> (eid, uid) in participants
  {
    if (eid, uid) in participants {
      assert (eid, uid).1 == uid;
    }
  }

  /** Inserting the pair (eid, uid) adds uid to eid's members and touches no
      other event; when uid was not a member the count grows by exactly one. */
  lemma {:induction false} MembersAfterInsert(participants: set<(EventId, UserId)>, eid: EventId, uid: UserId, e: EventId)
    ensures Members(participants + {(eid, uid)}, e)
            == if e == eid then Members(participants, e) + {uid} else Members(participants, e)
    ensures e == eid && (eid, uid) !in participants ==>
              Count(participants + {(eid, uid)}, e) == Count(participants, e) + 1
  {
    var after := participants + {(eid, uid)};
    forall u ensures u in Members(after, e) <==>
                     u in (if e == eid then Members(participants, e) + {uid} else Members(participants, e)) {
      MembersMeaning(after, e, u);
      MembersMeaning(participants, e, u);
    }
    if e == eid && (eid, uid) !in participants {
      MembersMeaning(participants, eid, uid);
      assert uid !in Members(participants, e);
    }
  }

  /** Deleting the pair (eid, uid) removes uid from eid's members and
      touches no other event. */
  lemma {:induction false} MembersAfterDelete(participants: set<(EventId, UserId)>, eid: EventId, uid: UserId, e: EventId)
    ensures Members(participants - {(eid, uid)}, e)
            == if e == eid then Members(participants, e) - {uid} else Members(participants, e)
    ensures Count(participants - {(eid, uid)}, e) <= Count(participants, e)
  {
    var after := participants - {(eid, uid)};
    forall u ensures u in Members(after, e) <==>
                     u in (if e == eid then Members(participants, e) - {uid} else Members(participants, e)) {
      MembersMeaning(after, e, u);
      MembersMeaning(participants, e, u);
    }
    assert Members(after, e) <= Members(participants, e);
  }

  /** An event id no participant row refers to has no members. */
  lemma NoMembersOutsideEvents(participants: set<(EventId, UserId)>, events: map<EventId, Event>, eid: EventId)
    requires forall p | p in participants :: p.0 in events
    requires eid !in events
    ensures Members(participants, eid) == {}
  {
    forall u | u in Members(participants, eid) ensures false {
      MembersMeaning(participants, eid, u);
    }
  }

  /** Comment ids in the order the rows were inserted: AUTO_INCREMENT makes
      them strictly increasing. */
  predicate IdsIncreasing(cs: seq<Comment>) {
    forall i, j | 0 <= i < j < |cs| :: cs[i].commId < cs[j].commId
  }

  /** Dropping the first row keeps the ids increasing, and the first id is
      below all the others. */
  lemma IdsIncreasingTail(cs: seq<Comment>)
    requires IdsIncreasing(cs) && cs != []
    ensures IdsIncreasing(cs[1..])
    ensures forall c | c in cs[1..] :: cs[0].commId < c.commId
  {
    forall k, l | 0 <= k < l < |cs| - 1 ensures cs[1..][k].commId < cs[1..][l].commId {
      assert cs[1..][k] == cs[k + 1] && cs[1..][l] == cs[l + 1];
    }
  }

  /** The forum rows of event `eid`. */
  function ForumsOf(forums: map<ForumId, EventId>, eid: EventId): set<ForumId> {
    set f | f in forums && forums[f] == eid
  }

  /** The database. Besides the column types it keeps the constraints the
      queries rely on: participants and forums refer to existing events
      (foreign keys), each event has at most one forum, and comment ids are
      handed out in increasing order and never reused. */
  class Database {
    var events: map<EventId, Event>
    var participants: set<(EventId, UserId)>
    var forums: map<ForumId, EventId>
    var comments: seq<Comment>
    var nextEid: EventId
    var nextFid: ForumId
    var nextCommId: CommentId

    ghost predicate Valid()
      reads this
    {
      && (forall p | p in participants :: p.0 in events)
      && (forall e | e in events :: e < nextEid)
      && (forall f | f in forums :: f < nextFid && forums[f] in events)
      && (forall f, g | f in forums && g in forums && forums[f] == forums[g] :: f == g)
      && IdsIncreasing(comments)
      && (forall i | 0 <= i < |comments| :: comments[i].commId < nextCommId)
    }

    constructor ()
      ensures Valid()
      ensures events == map[] && participants == {} && forums == map[] && comments == []
    {
      events, participants, forums, comments := map[], {}, map[], [];
      nextEid, nextFid, nextCommId := 1, 1, 1;
    }
  }
}
