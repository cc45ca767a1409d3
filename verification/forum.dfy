/** forum.py: the queries and updates behind joining, leaving and the
    comment forum. Each function takes the connection; here it takes the
    `Database` it stands for. The SELECT ... FOR UPDATE transaction of
    add_participant is one atomic method. */
module Forum {
  import opened Common
  import opened Tables

  // ---------------------------------------------------------------------
  // Comments of one forum, oldest first (get_forum_comments)
  // ---------------------------------------------------------------------

  /** The rows of forum `fid`, in table order (WHERE co.fid = %s). */
  function InForum(cs: seq<Comment>, fid: ForumId): (r: seq<Comment>)
    ensures forall c :: c in r <==> c in cs && c.fid == fid
    ensures |r| <= |cs|
  {
    if cs == [] then []
    else (if cs[0].fid == fid then [cs[0]] else []) + InForum(cs[1..], fid)
  }

  predicate SortedByPostedAt(cs: seq<Comment>) {
    forall i, j | 0 <= i < j < |cs| :: cs[i].postedAt <= cs[j].postedAt
  }

  /** A sorted list stays sorted with a row no later than its rows in front. */
  lemma SortedCons(x: Comment, rest: seq<Comment>)
    requires SortedByPostedAt(rest)
    requires forall y | y in rest :: x.postedAt <= y.postedAt
    ensures SortedByPostedAt([x] + rest)
  {
    var s := [x] + rest;
    forall i, j | 0 <= i < j < |s| ensures s[i].postedAt <= s[j].postedAt {
      assert s[j] == rest[j - 1];
      if i > 0 {
        assert s[i] == rest[i - 1];
      }
    }
  }

  /** The head of a sorted list is its earliest row, and the tail is sorted. */
  lemma SortedHead(cs: seq<Comment>)
    requires SortedByPostedAt(cs) && cs != []
    ensures forall y | y in cs :: cs[0].postedAt <= y.postedAt
    ensures SortedByPostedAt(cs[1..])
  {
    forall i, j | 0 <= i < j < |cs| - 1 ensures cs[1..][i].postedAt <= cs[1..][j].postedAt {
      assert cs[1..][i] == cs[i + 1] && cs[1..][j] == cs[j + 1];
    }
  }

  /** Places `c` before the first row posted no earlier than it: the rows
      are the old ones plus `c`, each as often as before. */
  function InsertByPostedAt(c: Comment, cs: seq<Comment>): (r: seq<Comment>)
    ensures multiset(r) == multiset(cs) + multiset{c}
  {
    if cs == [] then [c]
    else if c.postedAt <= cs[0].postedAt then [c] + cs
    else
      assert cs == [cs[0]] + cs[1..];
      [cs[0]] + InsertByPostedAt(c, cs[1..])
  }

  /** The rows after inserting are `c` and the old rows. */
  lemma {:induction false} InsertMembers(c: Comment, cs: seq<Comment>)
    ensures forall x :: x in InsertByPostedAt(c, cs) <==> x == c || x in cs
  {
    if cs != [] && cs[0].postedAt < c.postedAt {
      InsertMembers(c, cs[1..]);
      assert cs == [cs[0]] + cs[1..];
    }
  }

  /** Inserting into a list sorted by posting time keeps it sorted. */
  lemma {:induction false} InsertKeepsSorted(c: Comment, cs: seq<Comment>)
    requires SortedByPostedAt(cs)
    ensures SortedByPostedAt(InsertByPostedAt(c, cs))
  {
    if cs != [] {
      SortedHead(cs);
      if c.postedAt <= cs[0].postedAt {
        SortedCons(c, cs);
      } else {
        var rest := InsertByPostedAt(c, cs[1..]);
        InsertKeepsSorted(c, cs[1..]);
        InsertMembers(c, cs[1..]);
        SortedCons(cs[0], rest);
      }
    }
  }

  /** ORDER BY co.postedAt ASC: the same rows, oldest first. Rows posted in
      the same second may come back in any order; this one keeps table order. */
  function SortByPostedAt(cs: seq<Comment>): (r: seq<Comment>)
    ensures SortedByPostedAt(r)
    ensures multiset(r) == multiset(cs)
  {
    if cs == [] then []
    else
      assert cs == [cs[0]] + cs[1..];
      var sorted := SortByPostedAt(cs[1..]);
      InsertKeepsSorted(cs[0], sorted);
      InsertByPostedAt(cs[0], sorted)
  }

  /** get_forum_comments: every comment of the forum and nothing else,
      oldest first. */
  method GetForumComments(db: Database, fid: ForumId) returns (r: seq<Comment>)
    ensures SortedByPostedAt(r)
    ensures multiset(r) == multiset(InForum(db.comments, fid))
    ensures forall c :: c in r <==> c in db.comments && c.fid == fid
  {
    r := SortByPostedAt(InForum(db.comments, fid));
    forall c ensures c in r <==> c in InForum(db.comments, fid) {
      assert c in r <==> c in multiset(r);
    }
  }

  /** get_forum_id_by_event: the event's forum, or None. */
  method GetForumIdByEvent(db: Database, eid: EventId) returns (fid: Option<ForumId>)
    requires db.Valid()
    ensures fid.None? <==> ForumsOf(db.forums, eid) == {}
    ensures fid.Some? ==> ForumsOf(db.forums, eid) == {fid.value}
  {
    if f :| f in db.forums && db.forums[f] == eid {
      fid := Some(f);
      assert f in ForumsOf(db.forums, eid);
    } else {
      fid := None;
    }
  }

  // ---------------------------------------------------------------------
  // Inserting and deleting comments
  // ---------------------------------------------------------------------

  /** insert_comment / insert_reply: appends a row with the next
      AUTO_INCREMENT id, posted at `now`, and returns that id (lastrowid). */
  method InsertCommentRow(db: Database, text: string, uid: UserId, fid: ForumId,
                          parent: Option<CommentId>, now: int) returns (commId: CommentId)
    requires db.Valid()
    modifies db
    ensures db.Valid()
    ensures commId == old(db.nextCommId)
    ensures forall c | c in old(db.comments) :: c.commId < commId
    ensures db.comments == old(db.comments) + [Comment(commId, text, uid, fid, parent, now)]
    ensures db.events == old(db.events) && db.participants == old(db.participants)
    ensures db.forums == old(db.forums)
  {
    commId := db.nextCommId;
    db.comments := db.comments + [Comment(commId, text, uid, fid, parent, now)];
    db.nextCommId := db.nextCommId + 1;
  }

  /** insert_comment: a top-level comment (parent_commId NULL). */
  method InsertComment(db: Database, text: string, uid: UserId, fid: ForumId, now: int)
    returns (commId: CommentId)
    requires db.Valid()
    modifies db
    ensures db.Valid()
    ensures forall c | c in old(db.comments) :: c.commId < commId
    ensures db.comments == old(db.comments) + [Comment(commId, text, uid, fid, None, now)]
    ensures db.events == old(db.events) && db.participants == old(db.participants)
    ensures db.forums == old(db.forums)
  {
    commId := InsertCommentRow(db, text, uid, fid, None, now);
  }

  /** insert_reply: a comment whose parent_commId is the replied-to comment. */
  method InsertReply(db: Database, text: string, uid: UserId, fid: ForumId,
                     parent: CommentId, now: int) returns (commId: CommentId)
    requires db.Valid()
    modifies db
    ensures db.Valid()
    ensures forall c | c in old(db.comments) :: c.commId < commId
    ensures db.comments == old(db.comments) + [Comment(commId, text, uid, fid, Some(parent), now)]
    ensures db.events == old(db.events) && db.participants == old(db.participants)
    ensures db.forums == old(db.forums)
  {
    commId := InsertCommentRow(db, text, uid, fid, Some(parent), now);
  }

  /** DELETE FROM comments WHERE commId = id. */
  function WithoutComment(cs: seq<Comment>, id: CommentId): (r: seq<Comment>)
    ensures |r| <= |cs|
  {
    if cs == [] then []
    else (if cs[0].commId == id then [] else [cs[0]]) + WithoutComment(cs[1..], id)
  }

  /** The rows left are exactly those with a different id. */
  lemma {:induction false} WithoutCommentMembers(cs: seq<Comment>, id: CommentId)
    ensures forall c :: c in WithoutComment(cs, id) <==> c in cs && c.commId != id
  {
    if cs != [] {
      WithoutCommentMembers(cs[1..], id);
      assert cs == [cs[0]] + cs[1..];
    }
  }

  lemma {:induction false} WithoutAbsentComment(cs: seq<Comment>, id: CommentId)
    requires forall k | 0 <= k < |cs| :: cs[k].commId != id
    ensures WithoutComment(cs, id) == cs
  {
    if cs != [] {
      WithoutAbsentComment(cs[1..], id);
    }
  }

  /** Deleting the one row that carries an id (commId is the primary key)
      removes exactly that row and keeps the others in order. */
  lemma {:induction false} WithoutCommentRemovesOne(cs: seq<Comment>, id: CommentId, i: nat)
    requires i < |cs| && cs[i].commId == id
    requires forall k | 0 <= k < |cs| && k != i :: cs[k].commId != id
    ensures WithoutComment(cs, id) == cs[..i] + cs[i + 1..]
  {
    var tail := cs[1..];
    if i == 0 {
      forall k | 0 <= k < |tail| ensures tail[k].commId != id {
        assert tail[k] == cs[k + 1];
      }
      WithoutAbsentComment(tail, id);
    } else {
      forall k | 0 <= k < |tail| && k != i - 1 ensures tail[k].commId != id {
        assert tail[k] == cs[k + 1];
      }
      WithoutCommentRemovesOne(tail, id, i - 1);
      assert cs[0].commId != id;
      calc {
        WithoutComment(cs, id);
        [cs[0]] + WithoutComment(tail, id);
        [cs[0]] + (tail[..i - 1] + tail[i..]);
        { assert [cs[0]] + tail[..i - 1] == cs[..i] && tail[i..] == cs[i + 1..]; }
        cs[..i] + cs[i + 1..];
      }
    }
  }

  lemma WithoutKeepsIdsIncreasing(cs: seq<Comment>, id: CommentId)
    requires IdsIncreasing(cs)
    ensures IdsIncreasing(WithoutComment(cs, id))
  {
    if i :| 0 <= i < |cs| && cs[i].commId == id {
      forall k | 0 <= k < |cs| && k != i ensures cs[k].commId != id {
        if k < i {
          assert cs[k].commId < cs[i].commId;
        } else {
          assert cs[i].commId < cs[k].commId;
        }
      }
      WithoutCommentRemovesOne(cs, id, i);
    } else {
      WithoutAbsentComment(cs, id);
    }
  }

  /** delete_comment_by_id. */
  method DeleteCommentById(db: Database, id: CommentId)
    requires db.Valid()
    modifies db
    ensures db.Valid()
    ensures db.comments == WithoutComment(old(db.comments), id)
    ensures db.events == old(db.events) && db.participants == old(db.participants)
    ensures db.forums == old(db.forums)
  {
    WithoutKeepsIdsIncreasing(db.comments, id);
    WithoutCommentMembers(db.comments, id);
    db.comments := WithoutComment(db.comments, id);
    forall k | 0 <= k < |db.comments| ensures db.comments[k].commId < db.nextCommId {
      assert db.comments[k] in old(db.comments);
    }
  }

  // ---------------------------------------------------------------------
  // Participants
  // ---------------------------------------------------------------------

  datatype CapacityInfo = CapacityInfo(cap: int, date: Day, currentCount: nat)

  /** get_event_capacity_info: the event's cap, date and participant count
      (COUNT over the LEFT JOIN), or None when no such event exists. */
  method GetEventCapacityInfo(db: Database, eid: EventId) returns (info: Option<CapacityInfo>)
    ensures info.None? <==> eid !in db.events
    ensures info.Some? ==>
              info.value.cap == db.events[eid].cap && info.value.date == db.events[eid].date
              && info.value.currentCount == |Members(db.participants, eid)|
  {
    if eid !in db.events {
      return None;
    }
    var e := db.events[eid];
    info := Some(CapacityInfo(e.cap, e.date, Count(db.participants, eid)));
  }

  /** is_user_participant. */
  method IsUserParticipant(db: Database, eid: EventId, uid: UserId) returns (b: bool)
    ensures b <==> uid in Members(db.participants, eid)
  {
    MembersMeaning(db.participants, eid, uid);
    b := (eid, uid) in db.participants;
  }

  /** get_event_creator: addedBy, or None when the event does not exist. */
  method GetEventCreator(db: Database, eid: EventId) returns (creator: Option<UserId>)
    ensures creator.None? <==> eid !in db.events
    ensures creator.Some? ==> creator.value == db.events[eid].addedBy
  {
    if eid in db.events {
      creator := Some(db.events[eid].addedBy);
    } else {
      creator := None;
    }
  }

  /** add_participant's answer: True (Added), False (Refused), or the
      exception it re-raises after rolling back (Raised). */
  datatype AddOutcome = Added | Refused | Raised

  /** What the locked transaction decides on the tables it sees: a missing
      event and a full event are refused; otherwise the INSERT either adds
      the pair or violates the (eid, uid) primary key, which raises. The
      function does not look for an existing membership before inserting:
      that is left to its callers. */
  function AddDecision(events: map<EventId, Event>, participants: set<(EventId, UserId)>,
                       eid: EventId, uid: UserId): (r: AddOutcome)
    ensures r == Refused <==> eid !in events || Count(participants, eid) >= events[eid].cap
    ensures r == Raised <==>
              eid in events && Count(participants, eid) < events[eid].cap
              && uid in Members(participants, eid)
  {
    if eid !in events then Refused
    else if Count(participants, eid) >= events[eid].cap then Refused
    else
      MembersMeaning(participants, eid, uid);
      if (eid, uid) in participants then Raised else Added
  }

  /** A successful add takes the count up by exactly one and never above
      the cap, and leaves every other event's members alone. */
  lemma AddedStaysWithinCap(events: map<EventId, Event>, participants: set<(EventId, UserId)>,
                            eid: EventId, uid: UserId, e: EventId)
    requires AddDecision(events, participants, eid, uid) == Added
    ensures Count(participants + {(eid, uid)}, eid) == Count(participants, eid) + 1
    ensures Count(participants + {(eid, uid)}, eid) <= events[eid].cap
    ensures e != eid ==> Members(participants + {(eid, uid)}, e) == Members(participants, e)
  {
    MembersAfterInsert(participants, eid, uid, eid);
    MembersAfterInsert(participants, eid, uid, e);
  }

  /** With a capacity of 0 (or less) nobody is ever added. */
  lemma ZeroCapacityNeverAdds(events: map<EventId, Event>, participants: set<(EventId, UserId)>,
                              eid: EventId, uid: UserId)
    requires eid in events && events[eid].cap <= 0
    ensures AddDecision(events, participants, eid, uid) == Refused
  {
  }

  /** add_participant: inserts the pair only when the decision is Added; on
      a refusal or the raised error the transaction is rolled back and the
      participants are as before. */
  method AddParticipant(db: Database, eid: EventId, uid: UserId) returns (r: AddOutcome)
    requires db.Valid()
    modifies db
    ensures db.Valid()
    ensures r == AddDecision(old(db.events), old(db.participants), eid, uid)
    ensures db.participants == if r == Added then old(db.participants) + {(eid, uid)} else old(db.participants)
    ensures db.events == old(db.events) && db.forums == old(db.forums) && db.comments == old(db.comments)
  {
    if eid !in db.events {
      return Refused;
    }
    var count := Count(db.participants, eid);
    if count >= db.events[eid].cap {
      return Refused;
    }
    if (eid, uid) in db.participants {
      // The INSERT violates the primary key; the handler rolls back and re-raises.
      return Raised;
    }
    db.participants := db.participants + {(eid, uid)};
    r := Added;
  }

  /** remove_participant: deletes the pair if present; nothing else changes. */
  method RemoveParticipant(db: Database, eid: EventId, uid: UserId)
    requires db.Valid()
    modifies db
    ensures db.Valid()
    ensures db.participants == old(db.participants) - {(eid, uid)}
    ensures db.events == old(db.events) && db.forums == old(db.forums) && db.comments == old(db.comments)
  {
    db.participants := db.participants - {(eid, uid)};
  }
}
