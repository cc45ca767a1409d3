# Student events and their forums, modelled in Dafny

The web application lets Wellesley students create events, join and leave them
up to a capacity, and talk about them in a per-event forum with threaded
replies. The model covers five parts of it.

- **The membership register** (`tables.dfy`, `forum.dfy`, `form.dfy`, `routes.dfy`).
  - The database tables become one `Database` object: events, participant pairs, forums and comments, plus the AUTO_INCREMENT counters.
  - Each forum.py and form.py function becomes a module-level method that takes the `Database` in place of the connection.
  - The request handlers of app.py become methods proved against specification functions. These cover join, leave, create, edit and delete of events, and adding and deleting comments.
- **Form validation** (`validation.dfy`, `common.dfy`): the event form, sign-up, the profile editor and the ownership check.
- **Times and dates**:
  - `event_time.dfy`: the 12-hour clock text of event.py's `format_time`;
  - `week.dfy`: the Sunday-to-Saturday week of the calendar page;
  - `time_ago.dfy`: the "n units ago" labels, in the server's filter and in the browser.
- **The event panel** (`panel.dfy`): which buttons and messages the calendar's side panel shows, and how that lines up with what the join handler will answer.
- **Comment threads** in the browser:
  - `threading.dfy`: grouping comments by parent and rendering them recursively;
  - `reply_form.dfy`: the inline reply form.

The clock is always a parameter: "now" in seconds or milliseconds, "today" as a day number. Event dates are the day numbers MySQL stores.

## Model

| member | source | states |
|---|---|---|
| Common.TrimEmptyIffBlank | app.py:137-145 | a stripped field is empty exactly when every character of it is whitespace, which is what `if not title` after `.strip()` tests |
| Common.TrimmedHasNoOuterSpace | app.py:137-145 | a stripped field that is not empty starts and ends with a non-whitespace character |
| Common.NatToStringRoundTrip | app.py:1124-1132 | the decimal text of a count reads back as the count |
| EventTime.Pad2 | event.py:18 | `{n:02d}` for n below 100 is two digits that read back as n |
| EventTime.FormatTime | event.py:7-18 | NULL gives 'TBD'; any other duration gives eight characters with ':' third, a space sixth and 'M' last |
| EventTime.ClockRanges | event.py:12-17 | the displayed hour is in 1..12 and the minute in 0..59, for every duration |
| EventTime.FormatTimeReadsBack | event.py:11-18 | the text reads back as the hour modulo 12 (0 shown as 12), the minute, and PM exactly when the hour count is 12 or more, including counts of a day or more |
| EventTime.FormatTimeWithinDay | event.py:11-18 | for a time of day, reading the text back and converting to 24 hours recovers the hour and the minute |
| Week.DaysSinceSunday | app.py:92 | the days back to the last Sunday lie in 0..6 |
| Week.WeekBounds | app.py:92-94 | the week starts on a Sunday, ends six days later and contains the requested day; there is no week exactly when the date arithmetic leaves Python's date range |
| Week.WeekStartIsTheSunday | app.py:93 | the start of the week is the only Sunday among the six days up to the requested day |
| Week.WeekBoundsFailOnlyAtTheEnds | app.py:93-94 | the arithmetic overflows only for the first six and the last six days of the date range |
| TimeAgo.TimeAgoFilter | app.py:1106-1132 | a missing timestamp, an age under a minute and a future timestamp read 'just now'; otherwise the label counts whole minutes (under an hour), hours (under a day) or days, never one unit too many |
| TimeAgo.CommentTime | static/calendar.js:508-526 | formatCommentTime gives the same kind of label for an age in milliseconds, describing the age in whole seconds |
| TimeAgo.BrowserAgreesWithServer | static/event_forum.js:290-308 | the browser's label for an age of whole seconds equals the server filter's label |
| TimeAgo.AgoTextPlural | app.py:1124-1132 | the unit is plural exactly when the count is not 1, and the text starts with the count |
| Validation.ParseNumberAsWritten | app.py:175-176 | the guard as written: int() raises exactly when the text is numeric but not all decimal digits; the form error is given exactly when the text is not numeric; a value is never negative |
| Validation.SuperscriptTwoRaises | app.py:175-176 | '²' passes isnumeric() and then raises in int() |
| Validation.ParseNumber | app.py:189-190 | the corrected guard never raises and gives a value exactly for a non-empty run of ASCII digits; the value is never negative |
| Validation.ParseNumberAgreesUnlessRaising | app.py:175-176 | the corrected guard agrees with the original on every string the original does not crash on |
| Validation.ParseNumberRoundTrip | app.py:189-190 | every number's decimal text parses back to that number |
| Validation.ParseCapacity | app.py:173-184 | a blank capacity is 10; any other text is parsed as a number |
| Validation.CapacityNeverNegative | app.py:177-182 | "-5" is rejected as not a non-negative integer, and no parsed capacity is negative, so the "must be non-negative" branch cannot be reached |
| Validation.CheckEventForm | app.py:147-193 | fields are stripped; the error flag is set exactly when a required field is blank or the capacity or the category is malformed; when it is not set, the capacity (default 10) and the category id are their parsed values |
| Validation.CheckSignup | app.py:632-649 | each answer is given exactly under its condition, in the route's order: a missing field when one of the four is empty; otherwise a non-Wellesley email when the email does not end in '@wellesley.edu'; otherwise a mismatch when the passwords differ; otherwise a short password when it is under 8 long; otherwise sign-up succeeds |
| Validation.SignupOrder | app.py:637-649 | for any name, any local part before '@wellesley.edu' and any short password, a confirmation that differs is reported as a mismatch and a matching one as too short |
| Validation.CheckProfile | app.py:762-793 | each error (name missing or too long, bio over 100, pronouns over 30, year not a number) is reported exactly when its condition holds on the stripped fields; no error exactly when none holds; the year is converted exactly when it is a number |
| Validation.CheckStrippedProfile | app.py:770-793 | the same checks on fields already stripped: each of the five errors is reported exactly when its condition holds |
| Validation.CheckOwner | app.py:405-413 | permitted exactly when the row exists and its owner is the caller; not found exactly when the row is missing |
| Tables.MembersMeaning | forum.py:155-162 | a user is a member of an event exactly when their pair is in the participants table |
| Tables.MembersAfterInsert | form.py:66-76 | inserting a pair adds that user to that event's members and changes no other event; the count grows by one when the pair is new |
| Tables.MembersAfterDelete | forum.py:234-241 | deleting a pair removes that user from that event only; the count never grows |
| Tables.NoMembersOutsideEvents | app.py:215-223 | an event id not yet in the events table has no participants |
| Tables.IdsIncreasingTail | forum.py:113-122 | after dropping the first comment the ids still increase, and the first id is below all others |
| Forum.InForum | forum.py:99 | a comment is selected exactly when it is in the table with that forum id |
| Forum.InsertByPostedAt | forum.py:100 | inserting adds exactly that comment, once, and loses or duplicates no other row |
| Forum.InsertMembers | forum.py:100 | after inserting, the rows are the new comment and the old rows |
| Forum.InsertKeepsSorted | forum.py:100 | inserting into a list sorted by posting time keeps it sorted |
| Forum.SortByPostedAt | forum.py:100 | the result is sorted by posting time and is a permutation of the input |
| Forum.GetForumComments | forum.py:90-102 | exactly the forum's comments, each as often as stored, sorted by posting time |
| Forum.GetForumIdByEvent | forum.py:105-110 | None exactly when the event has no forum; otherwise its one forum |
| Forum.InsertCommentRow | forum.py:113-122 | appends one row whose id is larger than every existing id and returns that id; the other tables are unchanged |
| Forum.InsertComment | forum.py:113-122 | appends a top-level comment with a fresh, larger id |
| Forum.InsertReply | forum.py:124-132 | appends a reply carrying its parent's id, with a fresh, larger id |
| Forum.WithoutComment | forum.py:138 | deleting by id never adds rows |
| Forum.WithoutCommentMembers | forum.py:138 | the rows left are exactly those with a different id |
| Forum.WithoutAbsentComment | forum.py:135-139 | deleting an id that is not there changes nothing |
| Forum.WithoutCommentRemovesOne | forum.py:135-139 | deleting an id that exactly one row carries removes exactly that row and keeps the others in order |
| Forum.WithoutKeepsIdsIncreasing | forum.py:135-139 | deleting keeps the ids in increasing order |
| Forum.DeleteCommentById | forum.py:135-139 | the comments table loses the rows with that id; nothing else changes |
| Forum.GetEventCapacityInfo | forum.py:142-152 | None exactly when the event does not exist; otherwise its cap, its date and its participant count |
| Forum.IsUserParticipant | forum.py:155-162 | true exactly when the pair is present |
| Forum.GetEventCreator | forum.py:226-231 | None exactly when the event does not exist; otherwise its addedBy |
| Forum.AddDecision | forum.py:203-219 | refused exactly when the event is missing or its count has reached the cap; the insert raises exactly when the event has room and the user already is a member; otherwise the user is added |
| Forum.AddedStaysWithinCap | forum.py:212-219 | a successful add raises the count by exactly one, never above the cap, and no other event changes |
| Forum.ZeroCapacityNeverAdds | forum.py:208-210 | with a cap of 0 nobody is ever added |
| Forum.AddParticipant | forum.py:165-223 | the answer is the decision on the tables before the call; the pair is inserted only when added; a refusal or a raise rolls back to the old tables |
| Forum.RemoveParticipant | forum.py:234-241 | removes that pair only, and nothing if it is absent |
| Form.BlankToNone | form.py:41-42 | an empty time becomes NULL and anything else is kept as it is |
| Form.BlankToNoneRoundTrip | form.py:41-42 | every text reads back as itself, and every stored value other than an empty string is what storing its text gives |
| Form.InsertEvent | form.py:17-64 | a new event with a fresh id and exactly one new forum for it; participants and comments are unchanged |
| Form.AddParticipant | form.py:66-76 | inserts the pair with no capacity or date check; raises, with no change, exactly when the event is missing or the pair exists |
| Routes.JoinSpec | app.py:341-365 | every answer exactly under its condition, in the handler's order: not found when the event is missing; past when it is before today; already joined when the user is a member; full when the count has reached the cap; joined otherwise |
| Routes.JoinedStaysWithinCap | app.py:357-361 | a successful join adds exactly one member, never beyond the cap, and changes no other event |
| Routes.ZeroCapacityNeverJoined | app.py:941-965 | an event with capacity 0 is never joined and its participants do not change |
| Routes.JoinEvent | app.py:933-968 | the handler answers JoinSpec on the old tables and leaves the participants as JoinEffect says |
| Routes.LeaveSpec | app.py:379-389 | leaving is refused exactly when the caller created the event and the creator id is not 0 |
| Routes.LeaveKeepsCreator | app.py:978-987 | leaving never removes the creator, whoever asks, and never changes another event |
| Routes.LeaveUndoesJoin | app.py:384-386 | for anyone but the creator, leaving right after a successful join restores the participants |
| Routes.LeaveIdempotent | app.py:384-386 | leaving twice is the same as leaving once |
| Routes.LeaveEvent | app.py:970-990 | the handler answers LeaveSpec and removes the pair exactly when leaving is allowed, even when the user was never a member |
| Routes.ApplyWithinBound | app.py:341-365 | one join or leave never pushes an event's count above the larger of its count and its cap |
| Routes.RunNeverExceedsCap | forum.py:208-219 | any sequence of joins and leaves keeps every event's count at most the larger of its starting count and its cap |
| Routes.QueueStaysFresh | app.py:352-355 | after the first of several distinct new users joins, the rest are still distinct and not members |
| Routes.FullQueueIsRefused | app.py:952-965 | once the event is full, every new user in a queue is told so and nobody is added |
| Routes.DistinctJoinersFillTheCap | app.py:952-965 | with k places left, the first k of a queue of distinct new users join and every later one is told the event is full |
| Routes.InsertWithCreator | app.py:215-223 | the event row and its forum are inserted, then the creator is its one participant, with no capacity check |
| Routes.CreateEvent | app.py:137-226 | rejected exactly when the form is not acceptable; the insert raises exactly when the form is acceptable and the database refuses the date text; in both cases nothing changes; otherwise the stripped fields become a new event whose only member is the creator, even with cap 0 |
| Routes.EditEvent | app.py:395-503 | not found, not the owner and rejected each happen exactly under their condition and change nothing; an update writes the stripped fields over the row and keeps every participant |
| Routes.UpdateEvent | app.py:498-500 | the row is replaced and nothing else changes |
| Routes.EditCanOvershootCap | app.py:450-500 | an accepted form whose capacity is "0" writes a row with cap 0 even when the event has members, so the stored cap is below the member count |
| Routes.CommentsOutside | app.py:529-530 | the comments kept are exactly those outside the deleted forums |
| Routes.CommentsOutsideKeepsOrder | app.py:529-530 | the comments kept stay in increasing id order |
| Routes.DeleteEvent | app.py:511-537 | not found and not the owner happen exactly under their condition and change nothing; a delete removes the event, its participants, its forum and that forum's comments |
| Routes.ApiAddComment | app.py:1037-1068 | empty exactly when the stripped text is empty; forum not found exactly when the event has no forum or its forum id is 0; otherwise the stripped text is appended to the event's forum with a fresh id |
| Routes.FindComment | app.py:547-549 | None exactly when no comment has the id; otherwise a comment with that id |
| Routes.DeleteComment | app.py:539-565 | not found exactly when no comment has the id; permitted exactly when its author asks, and only then is it deleted |
| Panel.PanelActions | static/calendar.js:98-155 | logged out shows only the login prompt; the creator sees edit and delete only; a participant sees leave only; join exactly when logged in, not creator, not participant, not passed and below the cap; the passed message wins over the full message |
| Panel.OneStatusForVisitors | static/calendar.js:125-155 | everyone sees something, and a logged-in non-creator sees exactly one of leave, passed, join and full |
| Panel.ServerPanel | app.py:867-877 | no panel exactly when the event is missing; otherwise the flags the server computes, fed to PanelActions |
| Panel.PanelPredictsJoin | static/calendar.js:127-154 | join is offered exactly when the join handler would succeed and 'full' exactly when it would answer full; 'passed' means the handler answers past; leave is shown exactly to members |
| Panel.LoggedOutSeesOnlyLogin | static/calendar.js:105-107 | a logged-out visitor sees only the login prompt |
| Threading.ParentKey | static/calendar.js:282 | a parent id of 0 or none files the comment at top level; any other parent id is its key |
| Threading.Bucket | static/calendar.js:280-287 | the reference definition of a bucket, the input filtered by parent key in order; Threading.BucketMembers and Threading.BucketCounts state its meaning |
| Threading.BucketMembers | static/calendar.js:280-287 | a comment is in a bucket exactly when it is an input comment with that key, so it lands in exactly one bucket |
| Threading.BucketStep | static/event_forum.js:68-75 | reading one more comment grows only that comment's bucket, by that comment |
| Threading.BucketCounts | static/event_forum.js:68-75 | a bucket holds each of its comments as often as the input does |
| Threading.GroupByParent | static/event_forum.js:68-75 | the loop builds, for every key, the bucket of the input filtered by that key in arrival order, and creates exactly the non-empty buckets |
| Threading.Roots | static/calendar.js:291 | the list of the top comments of a list of threads |
| Threading.RenderComment | static/calendar.js:398-414 | a comment's rendering has that comment on top and, as its replies, its own bucket in order; every reply at every depth sits under a comment whose bucket holds it |
| Threading.RenderEach | static/event_forum.js:172-184 | the children are rendered in bucket order, one thread per child, each filing its replies under their parents' buckets |
| Threading.RenderTop | static/calendar.js:290-291 | each top-level comment is rendered in order |
| Threading.GroupedRepliesAfterParents | static/event_forum.js:172-173 | when replies have larger ids than their parents, every bucket of a parent holds only larger ids |
| Threading.RenderThreads | static/event_forum.js:78-79 | the threads shown are the null bucket's comments, in order, each rendered from the grouped map and filed by its buckets |
| Threading.FiledMembers | static/event_forum.js:172-184 | in a thread filed by the buckets of the input, every comment is an input comment, and each below the top replies to an input comment |
| Threading.GroupedArePosts | static/calendar.js:280-287 | every comment in the grouped map is an input comment filed under its own key |
| Threading.OrphansAreNotRendered | static/calendar.js:290 | every rendered comment is an input comment that is top level or replies to an input comment, so a comment whose parent is missing is never shown |
| Threading.FlatWithoutParents | app.py:1013-1020 | when no comment carries a parent id, as the forum API sends them, every comment is shown at top level, in order, without replies |
| Threading.AllTopLevel | static/event_forum.js:70 | with no parent ids, the null bucket is the whole input |
| ReplyForms.ShowForm | static/calendar.js:422-426 | Reply opens the comment's form and does nothing when it is already open; no other form changes |
| ReplyForms.CancelForm | static/calendar.js:464-470 | Cancel closes the comment's own form only |
| ReplyForms.ShowThenCancel | static/calendar.js:424-426 | asking twice gives one form, and cancelling a freshly opened form restores the page |
| ReplyForms.FirstOpenForm | static/event_forum.js:194 | the form the lookup finds is an open one, and it finds one whenever the comment's own form is open |
| ReplyForms.FirstOpenFormIn | static/event_forum.js:169-186 | the first open form among the replies is an open one |
| ReplyForms.ToggleAsWritten | static/event_forum.js:192-198 | as written, Reply either removes exactly one open form, or opens the comment's own form when it is not open |
| ReplyForms.Toggle | static/event_forum.js:192-198 | as intended, Reply flips the comment's own form and no other |
| ReplyForms.ToggleTwice | static/event_forum.js:195-198 | two clicks restore the page |
| ReplyForms.AsWrittenAgreesWithoutOpenReplies | static/event_forum.js:192-198 | with no reply form open below the comment, the code as written flips the comment's own form |
| ReplyForms.ReplyClickClosesChildForm | static/event_forum.js:186 | a comment with one reply whose form is open: Reply on the comment closes the reply's form and opens nothing, where the intended result has both open |
| ReplyForms.CancelAfterToggle | static/event_forum.js:230-232 | Cancel closes a form that Reply just opened, restoring the page |
| ReplyForms.ReplyToSend | static/event_forum.js:221-227 | nothing is sent exactly when the reply is blank; otherwise the text sent is the trimmed reply, which is non-empty with no whitespace at either end |

## Left out

- SQL text, connections, cursors and commits: the tables are values in one object.
- The row lock of add_participant (forum.py:178-201) and concurrency in general: each handler is one atomic step.
- Forum.AddParticipant: an exception raised by the database is modelled only for the insert of an existing pair, which assumes the participants table has a unique key on (eid, uid).
- Flask routing, sessions, flash messages, templates, redirects, JSON bodies and status codes. Each handler's answer is one datatype value, and the validation's error messages are one flag.
- Routes.EditEvent, Routes.DeleteEvent, Panel.ServerPanel: these model the lookups and updates the handlers evidently intend, not the calls as written:
  - event.py:79 declares `get_event_by_id` without the connection argument that app.py:405, 519, 856 and 917 pass it;
  - event.py:119 declares `get_participant_count` the same way, and app.py:865 passes the connection too;
  - `update_event` and `delete_event_by_id` are not defined in event.py.
- Routes.DeleteEvent: the cascade to participants, the forum and its comments assumes foreign keys with ON DELETE CASCADE.
- Routes.EditEvent: a form field missing from the request makes `.strip()` raise (app.py:419-420); the model takes every field as present.
- add_comment_to_event (app.py:303-331) stores the unstripped text and checks `not text or not text.strip()`. Only the API route is modelled.
- Sign-up's year: app.py:623-627 converts a non-blank year with an unguarded `int()` before any check runs, so a year such as "abc" makes sign-up fail with ValueError. Validation.CheckSignup covers only the checks after it.
- bcrypt hashing and MySQL's duplicate-key error code 1062: library behaviour.
- get_categories (form.py:7-15): its order depends on the database collation.
- password.py, profile.py and the other event.py query functions (event.py:20-129): plain SELECTs and UPDATEs.
- The wall clock is a parameter. TimeAgo.TimeAgoFilter works on whole seconds where `total_seconds()` is a float, and the browser parses ISO strings into milliseconds.
- Characters: Python's strip() and JavaScript's trim() remove all Unicode whitespace; the model's whitespace is space, tab, newline, carriage return, vertical tab and form feed. Validation.IsNumericChar knows six non-decimal numeric characters; str.isnumeric() knows many more.
- Validation.ParseNumberAsWritten, Validation.ParseNumber: digits are ASCII only. Python's isnumeric(), isdecimal() and int() accept every Unicode decimal digit ("٣", U+0663, converts to 3), and int() also accepts a sign, surrounding whitespace and underscores between digits ("+5", " 5", "1_0"); the model reports all of these as not a number.
- Validation.CheckEventForm: models the corrected guard Validation.ParseNumber. With the guard as written, a capacity or category such as "²" raises ValueError at app.py:175-176 or 189-190 and the request fails, where the model sets the error flag.
- Validation.CheckProfile, Validation.CheckStrippedProfile: model the corrected guard. A year such as "²" raises ValueError at app.py:789-790 and the profile update fails, where the model reports "not a number".
- Routes.CreateEvent: models the corrected guard, so a capacity or category such as "²" is a form rejection rather than a ValueError at app.py:175-176 or 189-190. The `date` parameter stands for the day MySQL makes of the stripped date text, which the model does not tie to that text; the start and end times are stored as typed, and a time text MySQL refuses, which would also make the insert raise, is not modelled.
- Routes.EditEvent: models the corrected guard, so "²" as capacity or category is a rejection rather than a ValueError at app.py:458-459 or 472-473; `date` stands for MySQL's day for the date text as in Routes.CreateEvent, and a date or time text MySQL refuses is not modelled.
- Routes.DeleteComment, Routes.FindComment: app.py:547 calls `forum_db.get_comment_info`, which forum.py does not define, so delete_comment as written raises AttributeError, reports an error and deletes nothing. The model gives the lookup the route evidently intends, by Routes.FindComment over the comments table.
- Forum.SortByPostedAt: MySQL leaves the order of comments with equal posting times unspecified; the model sorts them stably.
- Threading.RenderThreads requires every reply's id to exceed its parent's id. AUTO_INCREMENT guarantees this for the rows the database returns. On a cycle the script would recurse without end, which the model does not represent.
- The DOM, fetch calls, the reply API route that calendar.js:484 and event_forum.js:246 post to (app.py has no such route), and the panel's status messages accumulating across openings: rendering is reduced to the tree of comments, and the reply forms to the set of comments whose form is open.
- The calendar page's event query: app.py:97 calls `get_week_events(conn, start_of_week, end_of_week)` while event.py:46 declares `get_week_events(start_date, end_date)`, so the call raises TypeError once the week is computed. Week.WeekBounds covers only the week.
- The forum list queries in forum.py:8-88: plain SELECTs.
- Panel.PanelPredictsJoin: the panel tests membership before the date, the join handler the date first. A member of a past event is therefore offered leave while a join would answer "past"; the lemma states the correspondence case by case.

## Findings

| source | as written | input that shows it | evidently intended | confidence | as-written member | corrected member |
|---|---|---|---|---|---|---|
| app.py:175-176 | `int(cap_str)` is guarded by `cap_str.isnumeric()`, which also accepts numeric characters that are not decimal digits; int() then raises ValueError and the request fails (the same guard is at app.py:189-190, 458-459, 472-473 and 789-790) | capacity "²" | such input is reported as "must be a non-negative integer" (a guard accepting only decimal digits) | high, not executed | Validation.ParseNumberAsWritten | Validation.ParseNumber |
| static/event_forum.js:192-198 | `commentDiv.querySelector('.inline-reply-form')` also searches the replies, which sit inside the comment's element (static/event_forum.js:186), before the comment's own form (static/event_forum.js:240); the first open form found is removed and nothing is opened | comment 1 with reply 2 whose form is open; click Reply on comment 1 | Reply toggles the comment's own form only | medium, not executed | ReplyForms.ToggleAsWritten | ReplyForms.Toggle |
