/** Comment threads in the browser (static/calendar.js and
    static/event_forum.js, loadForumComments and createCommentElement; the
    two files build the same structure). The comments arrive as a list; a
    loop files each under its parent's id, then the top-level bucket is
    rendered and every comment's replies are rendered under it,
    recursively. Markup is reduced to the tree it encodes. */
module Threading {
  import opened Common

  /** The part of a comment the threading looks at. */
  datatype Post = Post(commId: nat, parentCommId: Option<nat>)

  /** The bucket a comment is filed under: `comment.parent_commId || null`,
      so a missing parent and a parent id of 0 both mean top level (None). */
  type Key = Option<nat>

  function ParentKey(p: Post): (k: Key)
    ensures k.Some? ==> k == p.parentCommId && k.value != 0
  {
    if p.parentCommId.Some? && p.parentCommId.value != 0 then p.parentCommId else None
  }

  /** The comments filed under `k`, in arrival order. */
  function Bucket(posts: seq<Post>, k: Key): seq<Post>
    decreases |posts|
  {
    if posts == [] then []
    else
      var last := posts[|posts| - 1];
      Bucket(posts[..|posts| - 1], k) + (if ParentKey(last) == k then [last] else [])
  }

  /** Every comment lands in exactly one bucket: the one of its own key. */
  lemma {:induction false} BucketMembers(posts: seq<Post>, k: Key, q: Post)
    ensures q in Bucket(posts, k) <==> q in posts && ParentKey(q) == k
    decreases |posts|
  {
    if posts != [] {
      var init := posts[..|posts| - 1];
      BucketMembers(init, k, q);
      assert posts == init + [posts[|posts| - 1]];
    }
  }

  /** A bucket keeps each of its comments as often as the input has it:
      nothing is dropped or duplicated. */
  lemma {:induction false} BucketCounts(posts: seq<Post>, k: Key, q: Post)
    requires ParentKey(q) == k
    ensures multiset(Bucket(posts, k))[q] == multiset(posts)[q]
    decreases |posts|
  {
    if posts != [] {
      var init := posts[..|posts| - 1];
      BucketCounts(init, k, q);
      assert posts == init + [posts[|posts| - 1]];
    }
  }

  /** One more comment read: only its own bucket grows, by that comment. */
  lemma {:induction false} BucketStep(posts: seq<Post>, i: nat, k: Key)
    requires i < |posts|
    ensures Bucket(posts[..i + 1], k)
            == Bucket(posts[..i], k) + (if ParentKey(posts[i]) == k then [posts[i]] else [])
  {
    assert posts[..i + 1][..i] == posts[..i];
    assert posts[..i + 1][i] == posts[i];
  }

  function Lookup(m: map<Key, seq<Post>>, k: Key): seq<Post> {
    if k in m then m[k] else []
  }

  /** Builds childrenByParent: one pass over the comments, creating a bucket
      the first time its key is seen and appending to it. */
  method GroupByParent(posts: seq<Post>) returns (m: map<Key, seq<Post>>)
    ensures forall k :: Lookup(m, k) == Bucket(posts, k)
    ensures forall k :: k in m <==> Bucket(posts, k) != []
  {
    m := map[];
    var i := 0;
    while i < |posts|
      invariant 0 <= i <= |posts|
      invariant forall k :: Lookup(m, k) == Bucket(posts[..i], k)
      invariant forall k :: k in m <==> Bucket(posts[..i], k) != []
    {
      var p := posts[i];
      var key := ParentKey(p);
      if key !in m {
        m := m[key := []];
      }
      m := m[key := m[key] + [p]];
      forall k ensures Bucket(posts[..i + 1], k) == Bucket(posts[..i], k) + (if key == k then [p] else []) {
        BucketStep(posts, i, k);
      }
      i := i + 1;
    }
    assert posts[..|posts|] == posts;
  }

  // ---------------------------------------------------------------------
  // Rendering
  // ---------------------------------------------------------------------

  /** A rendered comment with its rendered replies. */
  datatype Thread = Thread(post: Post, replies: seq<Thread>)

  function Roots(ts: seq<Thread>): (r: seq<Post>)
    ensures |r| == |ts|
    ensures forall i | 0 <= i < |ts| :: r[i] == ts[i].post
  {
    if ts == [] then [] else [ts[0].post] + Roots(ts[1..])
  }

  /** What makes the recursion stop: every reply has a larger id than the
      comment it replies to (ids are AUTO_INCREMENT and a reply is inserted
      after its parent), and all ids lie below `bound`. */
  predicate RepliesAfterParents(m: map<Key, seq<Post>>, bound: nat) {
    forall k, q | k in m && q in m[k] :: q.commId < bound && (k.Some? ==> k.value < q.commId)
  }

  /** Every reply in `t` sits under a comment whose bucket holds it. */
  ghost predicate FiledIn(t: Thread, m: map<Key, seq<Post>>) {
    forall i | 0 <= i < |t.replies| ::
      t.replies[i].post in Lookup(m, Some(t.post.commId)) && FiledIn(t.replies[i], m)
  }

  /** createCommentElement: the comment, then its own bucket's comments
      rendered in order. */
  function RenderComment(m: map<Key, seq<Post>>, p: Post, bound: nat): (t: Thread)
    requires RepliesAfterParents(m, bound) && p.commId < bound
    ensures t.post == p
    ensures Roots(t.replies) == Lookup(m, Some(p.commId))
    ensures FiledIn(t, m)
    decreases bound - p.commId, 1, 0
  {
    Thread(p, RenderEach(m, Lookup(m, Some(p.commId)), p.commId, bound))
  }

  /** children.forEach: each child rendered, in bucket order. */
  function RenderEach(m: map<Key, seq<Post>>, ps: seq<Post>, parentId: nat, bound: nat): (ts: seq<Thread>)
    requires RepliesAfterParents(m, bound)
    requires forall q | q in ps :: parentId < q.commId < bound
    ensures |ts| == |ps|
    ensures Roots(ts) == ps
    ensures forall i | 0 <= i < |ts| :: FiledIn(ts[i], m)
    decreases bound - parentId, 0, |ps|
  {
    if ps == [] then []
    else [RenderComment(m, ps[0], bound)] + RenderEach(m, ps[1..], parentId, bound)
  }

  /** topLevel.forEach: the comments of the null bucket, in order. */
  function RenderTop(m: map<Key, seq<Post>>, ps: seq<Post>, bound: nat): (ts: seq<Thread>)
    requires RepliesAfterParents(m, bound)
    requires forall q | q in ps :: q.commId < bound
    ensures |ts| == |ps|
    ensures forall i | 0 <= i < |ps| :: ts[i] == RenderComment(m, ps[i], bound)
  {
    if ps == [] then []
    else [RenderComment(m, ps[0], bound)] + RenderTop(m, ps[1..], bound)
  }

  /** One more than the largest id: the termination measure for rendering
      the input's threads, not something the script computes. */
  function Bound(posts: seq<Post>): (b: nat)
    ensures forall p | p in posts :: p.commId < b
  {
    if posts == [] then 0
    else
      var rest := Bound(posts[1..]);
      assert forall p | p in posts :: p == posts[0] || p in posts[1..];
      if posts[0].commId < rest then rest else posts[0].commId + 1
  }

  /** Replies come after their parents in id order (true of rows the
      database returns). */
  predicate IdsAfterParents(posts: seq<Post>) {
    forall p | p in posts :: ParentKey(p).Some? ==> ParentKey(p).value < p.commId
  }

  lemma {:induction false} GroupedRepliesAfterParents(posts: seq<Post>, m: map<Key, seq<Post>>)
    requires IdsAfterParents(posts)
    requires forall k :: Lookup(m, k) == Bucket(posts, k)
    ensures RepliesAfterParents(m, Bound(posts))
  {
    forall k, q | k in m && q in m[k] ensures q.commId < Bound(posts) && (k.Some? ==> k.value < q.commId) {
      assert Lookup(m, k) == m[k];
      BucketMembers(posts, k, q);
    }
  }

  /** Renders the thread list the way loadForumComments does. */
  method RenderThreads(posts: seq<Post>) returns (forest: seq<Thread>, m: map<Key, seq<Post>>)
    requires IdsAfterParents(posts)
    ensures RepliesAfterParents(m, Bound(posts))
    ensures forall k :: Lookup(m, k) == Bucket(posts, k)
    ensures Roots(forest) == Bucket(posts, None)
    ensures forall i | 0 <= i < |forest| :: forest[i].post.commId < Bound(posts)
    ensures forall i | 0 <= i < |forest| :: forest[i] == RenderComment(m, forest[i].post, Bound(posts))
    ensures forall i | 0 <= i < |forest| :: FiledIn(forest[i], m)
  {
    m := GroupByParent(posts);
    GroupedRepliesAfterParents(posts, m);
    var top := Lookup(m, None);
    forall q | q in top ensures q.commId < Bound(posts) {
      BucketMembers(posts, None, q);
    }
    forest := RenderTop(m, top, Bound(posts));
  }

  // ---------------------------------------------------------------------
  // What gets rendered
  // ---------------------------------------------------------------------

  /** `q` appears somewhere in the thread. */
  ghost predicate InThread(t: Thread, q: Post) {
    t.post == q || exists i | 0 <= i < |t.replies| :: InThread(t.replies[i], q)
  }

  /** In a thread filed by the buckets of `posts`, every comment is one of
      `posts`, and each one below the top replies to a comment of `posts`. */
  lemma {:induction false} FiledMembers(t: Thread, posts: seq<Post>, m: map<Key, seq<Post>>, q: Post)
    requires forall k, c | k in m && c in m[k] :: ParentKey(c) == k && c in posts
    requires t.post in posts
    requires FiledIn(t, m) && InThread(t, q)
    ensures q in posts
    ensures q == t.post || exists r | r in posts :: ParentKey(q) == Some(r.commId)
    decreases t
  {
    if q != t.post {
      var i :| 0 <= i < |t.replies| && InThread(t.replies[i], q);
      var child := t.replies[i].post;
      assert Some(t.post.commId) in m && child in m[Some(t.post.commId)];
      FiledMembers(t.replies[i], posts, m, q);
    }
  }

  lemma {:induction false} GroupedArePosts(posts: seq<Post>, m: map<Key, seq<Post>>)
    requires forall k :: Lookup(m, k) == Bucket(posts, k)
    ensures forall k, c | k in m && c in m[k] :: ParentKey(c) == k && c in posts
  {
    forall k, c | k in m && c in m[k] ensures ParentKey(c) == k && c in posts {
      assert Lookup(m, k) == m[k];
      BucketMembers(posts, k, c);
    }
  }

  /** A comment whose parent is not among the comments (an orphan) is never
      rendered; every rendered comment is one of the input's, and is either
      top level or a reply to another input comment. */
  lemma {:induction false} OrphansAreNotRendered(posts: seq<Post>, forest: seq<Thread>, m: map<Key, seq<Post>>, i: nat, q: Post)
    requires forall k :: Lookup(m, k) == Bucket(posts, k)
    requires Roots(forest) == Bucket(posts, None)
    requires 0 <= i < |forest| && FiledIn(forest[i], m)
    requires InThread(forest[i], q)
    ensures q in posts
    ensures ParentKey(q) == None || exists r | r in posts :: ParentKey(q) == Some(r.commId)
  {
    var root := forest[i].post;
    assert root in Bucket(posts, None);
    BucketMembers(posts, None, root);
    GroupedArePosts(posts, m);
    FiledMembers(forest[i], posts, m, q);
  }

  /** When no comment carries a parent id (the forum API, app.py:1013-1020,
      sends none), every comment is rendered at top level, in order, with
      no replies. */
  lemma {:induction false} FlatWithoutParents(posts: seq<Post>, forest: seq<Thread>, m: map<Key, seq<Post>>)
    requires forall p | p in posts :: p.parentCommId.None?
    requires IdsAfterParents(posts)
    requires RepliesAfterParents(m, Bound(posts))
    requires forall k :: Lookup(m, k) == Bucket(posts, k)
    requires Roots(forest) == Bucket(posts, None)
    requires forall i | 0 <= i < |forest| :: forest[i].post.commId < Bound(posts)
    requires forall i | 0 <= i < |forest| :: forest[i] == RenderComment(m, forest[i].post, Bound(posts))
    ensures Roots(forest) == posts
    ensures forall i | 0 <= i < |forest| :: forest[i].replies == []
  {
    AllTopLevel(posts);
    forall i | 0 <= i < |forest| ensures forest[i].replies == [] {
      var kids := Lookup(m, Some(forest[i].post.commId));
      if kids != [] {
        BucketMembers(posts, Some(forest[i].post.commId), kids[0]);
        assert false;
      }
    }
  }

  lemma {:induction false} AllTopLevel(posts: seq<Post>)
    requires forall p | p in posts :: p.parentCommId.None?
    ensures Bucket(posts, None) == posts
    decreases |posts|
  {
    if posts != [] {
      AllTopLevel(posts[..|posts| - 1]);
      assert posts == posts[..|posts| - 1] + [posts[|posts| - 1]];
    }
  }
}
