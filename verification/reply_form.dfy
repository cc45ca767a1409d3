/** The inline reply forms of the comment threads (showInlineReplyForm in
    static/calendar.js and static/event_forum.js). The state is the set of
    comment ids whose reply form is open; the page's comments are the
    rendered threads of Threading. */
module ReplyForms {
  import opened Common
  import opened Threading

  /** The ids of the comments whose reply form is open. */
  type OpenForms = set<nat>

  // ---------------------------------------------------------------------
  // calendar.js: a comment's element holds only its own form (its replies
  // are rendered beside it), so the lookup sees that form alone.
  // ---------------------------------------------------------------------

  /** Reply: does nothing when the comment's form is already open,
      otherwise opens it (and hides the comment's action buttons). */
  function ShowForm(open: OpenForms, id: nat): (r: OpenForms)
    ensures id in r
    ensures forall x :: x != id ==> (x in r <==> x in open)
  {
    if id in open then open else open + {id}
  }

  /** Cancel: removes the comment's form (and shows the buttons again). */
  function CancelForm(open: OpenForms, id: nat): (r: OpenForms)
    ensures id !in r
    ensures forall x :: x != id ==> (x in r <==> x in open)
  {
    open - {id}
  }

  /** Asking twice gives one form, and cancelling a freshly opened form
      restores the page. */
  lemma ShowThenCancel(open: OpenForms, id: nat)
    ensures ShowForm(ShowForm(open, id), id) == ShowForm(open, id)
    ensures id !in open ==> CancelForm(ShowForm(open, id), id) == open
  {
  }

  // ---------------------------------------------------------------------
  // event_forum.js: a comment's element holds its replies' elements and,
  // appended after them, its own form; the lookup returns the first form
  // in document order.
  // ---------------------------------------------------------------------

  /** `querySelector('.inline-reply-form')` on a comment's element: the
      replies' forms come first in document order, its own form last. */
  function FirstOpenForm(t: Thread, open: OpenForms): (r: Option<nat>)
    ensures r.Some? ==> r.value in open
    ensures t.post.commId in open ==> r.Some?
    decreases t, 0
  {
    match FirstOpenFormIn(t.replies, open)
    case Some(f) => Some(f)
    case None => if t.post.commId in open then Some(t.post.commId) else None
  }

  function FirstOpenFormIn(ts: seq<Thread>, open: OpenForms): (r: Option<nat>)
    ensures r.Some? ==> r.value in open
    decreases ts, 1
  {
    if ts == [] then None
    else
      match FirstOpenForm(ts[0], open)
      case Some(f) => Some(f)
      case None => FirstOpenFormIn(ts[1..], open)
  }

  /** Reply, as written: removes the first form found under the comment's
      element and stops; only when there is none does it open the comment's
      own form. */
  function ToggleAsWritten(t: Thread, open: OpenForms): (r: OpenForms)
    ensures (exists f | f in open :: r == open - {f})
            || (t.post.commId !in open && r == open + {t.post.commId})
  {
    match FirstOpenForm(t, open)
    case Some(f) =>
      assert f in open;
      open - {f}
    case None => open + {t.post.commId}
  }

  /** Reply as intended: a second click on the same comment closes that
      comment's form; the first one opens it. */
  function Toggle(open: OpenForms, id: nat): (r: OpenForms)
    ensures id in r <==> id !in open
    ensures forall x :: x != id ==> (x in r <==> x in open)
  {
    if id in open then open - {id} else open + {id}
  }

  /** Toggling twice restores the page. */
  lemma ToggleTwice(open: OpenForms, id: nat)
    ensures Toggle(Toggle(open, id), id) == open
  {
  }

  /** With no reply form open below the comment, the code as written does
      what was intended. */
  lemma AsWrittenAgreesWithoutOpenReplies(t: Thread, open: OpenForms)
    requires FirstOpenFormIn(t.replies, open).None?
    ensures ToggleAsWritten(t, open) == Toggle(open, t.post.commId)
  {
  }

  /** A comment (1) with one reply (2) whose form is open: clicking Reply on
      the comment closes the reply's form and does not open its own. */
  lemma ReplyClickClosesChildForm()
    ensures var t := Thread(Post(1, None), [Thread(Post(2, Some(1)), [])]);
            && ToggleAsWritten(t, {2}) == {}
            && Toggle({2}, 1) == {1, 2}
  {
    var t := Thread(Post(1, None), [Thread(Post(2, Some(1)), [])]);
    assert FirstOpenForm(t.replies[0], {2}) == Some(2);
    assert FirstOpenFormIn(t.replies, {2}) == Some(2);
  }

  /** Cancel in event_forum.js removes the comment's own form. */
  lemma CancelAfterToggle(open: OpenForms, id: nat)
    requires id !in open
    ensures CancelForm(Toggle(open, id), id) == open
  {
  }

  // ---------------------------------------------------------------------
  // Submit (both scripts)
  // ---------------------------------------------------------------------

  /** The text a reply submit sends: the trimmed textarea, or nothing (an
      error message instead) when that is empty. */
  function ReplyToSend(text: string): (r: Option<string>)
    ensures r.None? <==> IsBlank(text)
    ensures r.Some? ==> r.value != [] && !IsSpace(r.value[0]) && !IsSpace(r.value[|r.value| - 1])
    ensures r.Some? ==> r.value == Trim(text)
  {
    TrimEmptyIffBlank(text);
    var t := Trim(text);
    if t == [] then None
    else
      TrimmedHasNoOuterSpace(text);
      Some(t)
  }
}
