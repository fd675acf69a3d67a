/** The blog handlers of controllers/blogController.js over an in-memory
    post table. Each handler runs as one atomic step; the caller's identity
    is the one the authentication gate attached (see module Auth), except
    for the listing, whose caller is optional. */
module BlogController {
  import opened Results
  import opened Blog
  import opened Likes
  import opened Auth

  /** A stored post together with its id, as the create and update
      handlers return it. */
  datatype Entry = Entry(id: PostId, post: Post)

  /** A post as the listing and the like handler return it: the stored
      fields, with `likes` replaced by the number of likes and the flag
      `isLikedByUser` added. */
  datatype PostView = PostView(
    id: PostId,
    title: string,
    content: string,
    author: UserId,
    authorName: string,
    createdAt: nat,
    updatedAt: nat,
    likes: nat,
    isLikedByUser: bool)

  /** `blog.toObject()` with `likes` set to the like count and
      `isLikedByUser` set to `liked`. */
  function Project(id: PostId, p: Post, liked: bool): PostView
  {
    PostView(id, p.title, p.content, p.author, p.authorName, p.createdAt, p.updatedAt, |p.likes|, liked)
  }

  /** The view keeps every stored field but the likers: two posts have the
      same view exactly when they differ at most in who liked them, and
      have the same number of likes. */
  lemma ProjectForgetsLikers(id: PostId, p: Post, q: Post, liked: bool)
    ensures Project(id, p, liked) == Project(id, q, liked) <==> q == p.(likes := q.likes) && |q.likes| == |p.likes|
  {
  }

  /** The listing's annotation of one post. A caller is present only when
      `req.userId` is set and truthy (not empty). */
  function Annotate(id: PostId, p: Post, caller: Option<UserId>): (v: PostView)
    ensures v.id == id && v.createdAt == p.createdAt
    ensures v.likes == |p.likes|
    ensures v.isLikedByUser <==> caller.Some? && caller.value != "" && caller.value in p.likes
    ensures caller.None? ==> !v.isLikedByUser
  {
    Project(id, p, caller.Some? && caller.value != "" && Any(p.likes, caller.value))
  }

  /** `title || blog.title`: a given, non-empty value wins, otherwise the
      current one stays. */
  function OrElse(given: Option<string>, current: string): (r: string)
    ensures r == current || (given.Some? && r == given.value)
    ensures r != "" <==> (given.Some? && given.value != "") || current != ""
    ensures given.Some? && given.value != "" ==> r == given.value
  {
    if given.Some? && given.value != "" then given.value else current
  }

  /** `blog.title = title || blog.title; blog.content = content ||
      blog.content` on a stored post, before validation: a given, non-empty
      value replaces the field (the title through its trim setter), an
      absent or empty one keeps it, and nothing else changes. */
  function Revise(p: Post, title: Option<string>, content: Option<string>): (q: Post)
    requires Trimmed(p.title)
    ensures q.title == if title.Some? && title.value != "" then Trim(title.value) else p.title
    ensures q.content == if content.Some? && content.value != "" then content.value else p.content
    ensures q.content != "" || p.content == ""
    ensures q == p.(title := q.title, content := q.content)
    ensures (title.None? || title.value == "") && (content.None? || content.value == "") ==> q == p
  {
    TrimFixedIffTrimmed(p.title);
    p.(title := Trim(OrElse(title, p.title)), content := OrElse(content, p.content))
  }

  /** Strictly newest first by creation stamp. */
  predicate NewestFirst(views: seq<PostView>)
  {
    forall i, j :: 0 <= i < j < |views| ==> views[i].createdAt > views[j].createdAt
  }

  /** Place `v` into a newest-first list. */
  function InsertByAge(views: seq<PostView>, v: PostView): (r: seq<PostView>)
    ensures |r| == |views| + 1
    ensures multiset(r) == multiset(views) + multiset{v}
    ensures v in r && forall w :: w in views ==> w in r
    ensures forall i :: 0 <= i < |r| ==> r[i] == v || r[i] in views
  {
    if views == [] || views[0].createdAt < v.createdAt then [v] + views
    else
      assert views == [views[0]] + views[1..];
      [views[0]] + InsertByAge(views[1..], v)
  }

  /** Every view placed after the head of a newest-first list is older
      than it. */
  lemma HeadIsNewest(views: seq<PostView>, v: PostView)
    requires views != [] && NewestFirst(views) && views[0].createdAt > v.createdAt
    ensures forall i :: 0 <= i < |InsertByAge(views[1..], v)| ==>
              views[0].createdAt > InsertByAge(views[1..], v)[i].createdAt
  {
    var tail := views[1..];
    var rest := InsertByAge(tail, v);
    forall i | 0 <= i < |rest| ensures views[0].createdAt > rest[i].createdAt {
      if rest[i] != v {
        var j :| 0 <= j < |tail| && tail[j] == rest[i];
        assert views[j + 1] == tail[j];
      }
    }
  }

  /** The post `id` has a view in `views`. */
  predicate Lists(views: seq<PostView>, id: PostId)
  {
    exists i :: 0 <= i < |views| && views[i].id == id
  }

  /** After an insertion, the posts listed before and the inserted one are
      listed. */
  lemma InsertKeepsListed(views: seq<PostView>, v: PostView, ids: set<PostId>)
    requires forall k :: k in ids ==> Lists(views, k)
    ensures forall k :: k in ids + {v.id} ==> Lists(InsertByAge(views, v), k)
  {
    var r := InsertByAge(views, v);
    forall k | k in ids + {v.id} ensures Lists(r, k) {
      if k == v.id {
        var j :| 0 <= j < |r| && r[j] == v;
      } else {
        var i :| 0 <= i < |views| && views[i].id == k;
        assert views[i] in r;
        var j :| 0 <= j < |r| && r[j] == views[i];
      }
    }
  }

  /** No two stored posts share a creation stamp. */
  predicate StampsDistinct(posts: map<PostId, Post>)
  {
    forall k, k' :: k in posts && k' in posts && k != k' ==> posts[k].createdAt != posts[k'].createdAt
  }

  /** Every view in `views` is the annotation of a stored post whose id is
      in `done`. */
  predicate AnnotatedFrom(views: seq<PostView>, posts: map<PostId, Post>, caller: Option<UserId>, done: set<PostId>)
  {
    forall w :: w in views ==> w.id in done && w.id in posts && w == Annotate(w.id, posts[w.id], caller)
  }

  /** One step of building the listing: inserting the annotation of a post
      not yet listed keeps the list newest first, made of annotations, and
      covering every post handled so far. */
  lemma ListingStep(views: seq<PostView>, posts: map<PostId, Post>, caller: Option<UserId>, done: set<PostId>, k: PostId)
    requires StampsDistinct(posts) && k in posts && k !in done
    requires NewestFirst(views) && AnnotatedFrom(views, posts, caller, done)
    requires forall j :: j in done ==> Lists(views, j)
    ensures var r := InsertByAge(views, Annotate(k, posts[k], caller));
      && NewestFirst(r)
      && AnnotatedFrom(r, posts, caller, done + {k})
      && forall j :: j in done + {k} ==> Lists(r, j)
  {
    var v := Annotate(k, posts[k], caller);
    InsertKeepsOrder(views, v);
    InsertKeepsListed(views, v, done);
  }

  /** Inserting a view whose stamp no listed view shares keeps the list
      strictly newest first. */
  lemma {:induction false} InsertKeepsOrder(views: seq<PostView>, v: PostView)
    requires NewestFirst(views)
    requires forall w :: w in views ==> w.createdAt != v.createdAt
    ensures NewestFirst(InsertByAge(views, v))
  {
    if views == [] || views[0].createdAt < v.createdAt {
      ConsKeepsOrder(v, views);
    } else {
      var tail := views[1..];
      assert views[0] in views;
      InsertKeepsOrder(tail, v);
      HeadIsNewest(views, v);
      ConsKeepsOrder(views[0], InsertByAge(tail, v));
    }
  }

  /** A view newer than every view of a newest-first list may be put in
      front of it. */
  lemma ConsKeepsOrder(head: PostView, rest: seq<PostView>)
    requires NewestFirst(rest)
    requires forall i :: 0 <= i < |rest| ==> head.createdAt > rest[i].createdAt
    ensures NewestFirst([head] + rest)
  {
    var r := [head] + rest;
    forall i, j | 0 <= i < j < |r| ensures r[i].createdAt > r[j].createdAt {
      assert r[j] == rest[j - 1];
      if i > 0 {
        assert r[i] == rest[i - 1];
      }
    }
  }

  /** `views` is the listing of `posts` for `caller`: strictly newest first,
      every view the annotation of the stored post it names, every stored
      post listed, and none listed twice. */
  predicate IsListing(views: seq<PostView>, posts: map<PostId, Post>, caller: Option<UserId>)
  {
    && NewestFirst(views)
    && (forall i :: 0 <= i < |views| ==>
          views[i].id in posts && views[i] == Annotate(views[i].id, posts[views[i].id], caller))
    && (forall k :: k in posts ==> Lists(views, k))
    && (forall i, j :: 0 <= i < j < |views| ==> views[i].id != views[j].id)
  }

  /** A newest-first list of annotations that covers every stored post is
      the listing. */
  lemma ListingComplete(views: seq<PostView>, posts: map<PostId, Post>, caller: Option<UserId>)
    requires NewestFirst(views) && AnnotatedFrom(views, posts, caller, posts.Keys)
    requires forall k :: k in posts ==> Lists(views, k)
    ensures IsListing(views, posts, caller)
  {
    forall i | 0 <= i < |views|
      ensures views[i].id in posts && views[i] == Annotate(views[i].id, posts[views[i].id], caller)
    {
      assert views[i] in views;
    }
  }

  /** The table invariant: stored posts pass validation, their like lists
      hold no duplicates, their stamps are in the past, creation stamps are
      distinct, and ids are below the next id to hand out. */
  ghost predicate Consistent(posts: map<PostId, Post>, clock: nat, nextId: PostId)
  {
    && (forall k :: k in posts ==>
          && k < nextId
          && WellFormed(posts[k])
          && NoDuplicates(posts[k].likes)
          && posts[k].createdAt <= posts[k].updatedAt < clock)
    && StampsDistinct(posts)
  }

  /** Saving a changed post, stamped with the current clock, keeps the
      table consistent once the clock advances. */
  lemma SaveKeepsConsistent(posts: map<PostId, Post>, clock: nat, nextId: PostId, id: PostId, q: Post)
    requires Consistent(posts, clock, nextId) && id in posts
    requires WellFormed(q) && NoDuplicates(q.likes)
    requires q.createdAt == posts[id].createdAt && q.updatedAt == clock
    ensures Consistent(posts[id := q], clock + 1, nextId)
  {
  }

  /** A request to one of the blog routes. */
  datatype Request =
    | ListBlogs
    | CreateBlogRequest(title: Option<string>, content: Option<string>)
    | UpdateBlogRequest(id: PostId, title: Option<string>, content: Option<string>)
    | DeleteBlogRequest(id: PostId)
    | ToggleLikeRequest(id: PostId)

  /** The successful answer of each route. */
  datatype Response =
    | Listing(views: seq<PostView>)
    | Created(entry: Entry)
    | Updated(entry: Entry)
    | Deleted
    | Liked(view: PostView)

  /** Storing a new post under the next id, stamped with the current clock,
      keeps the table consistent once both counters advance. */
  lemma CreateKeepsConsistent(posts: map<PostId, Post>, clock: nat, nextId: PostId, p: Post)
    requires Consistent(posts, clock, nextId)
    requires WellFormed(p) && p.likes == [] && p.createdAt == p.updatedAt == clock
    ensures nextId !in posts
    ensures Consistent(posts[nextId := p], clock + 1, nextId + 1)
  {
  }

  /** What a protected route answers, and what it does to the stored posts
      (`before` to `after`), when its handler runs for the identity `caller`
      the gate attached and the clock reads `clock`: each route's status, its
      success answer and its effect, as its handler states them. */
  ghost predicate Answers(req: Request, caller: Identity, clock: nat, before: map<PostId, Post>,
                          after: map<PostId, Post>, r: Result<Response>)
    requires !req.ListBlogs?
    requires forall k :: k in before ==> Trimmed(before[k].title)
  {
    && (r.Err? ==> after == before)
    && match req
       case CreateBlogRequest(title, content) =>
         var given := title.Some? && title.value != "" && content.Some? && content.value != "";
         && (r.Ok? <==> given && Trim(title.value) != "" && caller.userId != "" && caller.username != "")
         && (r.Err? ==> r.failure == if given then ServerError else MissingTitleOrContent)
         && (r.Ok? ==>
               && r.value.Created? && r.value.entry.id !in before
               && r.value.entry.post == Post(Trim(title.value), content.value, caller.userId, caller.username,
                                             [], clock, clock)
               && after == before[r.value.entry.id := r.value.entry.post])
       case UpdateBlogRequest(id, title, content) =>
         var owned := id in before && before[id].author == caller.userId;
         && (r.Ok? <==> owned && Revise(before[id], title, content).title != "")
         && (r.Err? ==> r.failure == if id !in before then BlogNotFound else if !owned then CannotEdit else ServerError)
         && (r.Ok? ==>
               var q := Revise(before[id], title, content);
               && r == Ok(Updated(Entry(id, if q == before[id] then q else q.(updatedAt := clock))))
               && after == before[id := r.value.entry.post])
       case DeleteBlogRequest(id) =>
         && (r.Ok? <==> id in before && before[id].author == caller.userId)
         && (r.Err? ==> r.failure == if id !in before then BlogNotFound else CannotDelete)
         && (r.Ok? ==> r == Ok(Deleted) && after == before - {id})
       case ToggleLikeRequest(id) =>
         && (r.Ok? <==> id in before && caller.userId != "")
         && (r.Err? ==> r.failure == if id !in before then BlogNotFound else ServerError)
         && (r.Ok? ==>
               var p := before[id];
               var toggled := p.(likes := Toggled(p.likes, caller.userId), updatedAt := clock);
               && after == before[id := toggled]
               && r == Ok(Liked(Project(id, toggled, caller.userId !in p.likes))))
  }

  /** A post a create route stores, stamped with the clock, is newer than
      every post stored before it. */
  lemma CreatedIsNewest(req: Request, caller: Identity, clock: nat, nextId: PostId, before: map<PostId, Post>,
                        after: map<PostId, Post>, r: Result<Response>)
    requires req.CreateBlogRequest? && Consistent(before, clock, nextId)
    requires Answers(req, caller, clock, before, after, r) && r.Ok?
    ensures r.value.Created? && r.value.entry.id in after
    ensures forall k :: k in before ==> before[k].createdAt < after[r.value.entry.id].createdAt
  {
  }

  /** No handler answers 401: only the gate does. */
  lemma HandlersNeverAnswer401(req: Request, caller: Identity, clock: nat, before: map<PostId, Post>,
                               after: map<PostId, Post>, r: Result<Response>)
    requires !req.ListBlogs? && forall k :: k in before ==> Trimmed(before[k].title)
    requires Answers(req, caller, clock, before, after, r)
    ensures r.Err? ==> r.failure.Status() != 401
  {
    if r.Err? {
      assert r.failure in {MissingTitleOrContent, ServerError, BlogNotFound, CannotEdit, CannotDelete};
    }
  }

  class PostTable {
    /** The stored posts by id. */
    var posts: map<PostId, Post>
    /** The stamp the next write receives; stands for the clock. */
    var clock: nat
    /** The id the next created post receives. */
    var nextId: PostId

    /** What every handler preserves (see Consistent). */
    ghost predicate Valid()
      reads this
    {
      Consistent(posts, clock, nextId)
    }

    constructor ()
      ensures Valid() && posts == map[]
    {
      posts := map[];
      clock := 0;
      nextId := 0;
    }

    /** getAllBlogs: every stored post, once, newest first, each annotated
        with its like count and whether the caller liked it. */
    method GetAllBlogs(caller: Option<UserId>) returns (views: seq<PostView>)
      requires Valid()
      ensures IsListing(views, posts, caller)
    {
      views := [];
      var pending := posts.Keys;
      while pending != {}
        invariant pending <= posts.Keys
        invariant NewestFirst(views)
        invariant AnnotatedFrom(views, posts, caller, posts.Keys - pending)
        invariant forall k :: k in posts.Keys - pending ==> Lists(views, k)
        decreases pending
      {
        var k :| k in pending;
        ListingStep(views, posts, caller, posts.Keys - pending, k);
        assert posts.Keys - (pending - {k}) == (posts.Keys - pending) + {k};
        views := InsertByAge(views, Annotate(k, posts[k], caller));
        pending := pending - {k};
      }
      assert posts.Keys - pending == posts.Keys;
      ListingComplete(views, posts, caller);
    }

    /** createBlog: 400 when title or content is missing or empty; 500 when
        the post does not pass validation on save (a title that trims to
        nothing, an empty caller id or name); otherwise one new post,
        stamped with the caller as author and the newest creation stamp. */
    method CreateBlog(caller: Identity, title: Option<string>, content: Option<string>) returns (r: Result<Entry>)
      requires Valid()
      modifies this
      ensures Valid()
      ensures title.None? || title.value == "" || content.None? || content.value == "" ==>
                r == Err(MissingTitleOrContent) && unchanged(this)
      ensures title.Some? && title.value != "" && content.Some? && content.value != "" ==>
                if Trim(title.value) == "" || caller.userId == "" || caller.username == "" then
                  r == Err(ServerError) && unchanged(this)
                else
                  && r == Ok(Entry(old(nextId), Post(Trim(title.value), content.value, caller.userId, caller.username,
                                                    [], old(clock), old(clock))))
                  && old(nextId) !in old(posts)
                  && posts == old(posts)[old(nextId) := r.value.post]
                  && clock == old(clock) + 1 && nextId == old(nextId) + 1
      ensures r.Ok? ==> forall k :: k in old(posts) ==> old(posts)[k].createdAt < r.value.post.createdAt
    {
      if title.None? || title.value == "" || content.None? || content.value == "" {
        return Err(MissingTitleOrContent);
      }
      var p := Post(Trim(title.value), content.value, caller.userId, caller.username, [], clock, clock);
      if !WellFormed(p) {
        return Err(ServerError);
      }
      var id := nextId;
      CreateKeepsConsistent(posts, clock, nextId, p);
      posts := posts[id := p];
      clock := clock + 1;
      nextId := nextId + 1;
      r := Ok(Entry(id, p));
    }

    /** updateBlog: 404 for an unknown id, 403 when the caller is not the
        author. Otherwise the post is revised field by field (see Revise); a
        title that trims to nothing fails validation on save with 500, and a
        revision that changes nothing is saved without a write. */
    method UpdateBlog(caller: Identity, id: PostId, title: Option<string>, content: Option<string>)
      returns (r: Result<Entry>)
      requires Valid()
      modifies this
      ensures Valid()
      ensures id !in old(posts) ==> r == Err(BlogNotFound) && unchanged(this)
      ensures id in old(posts) && old(posts)[id].author != caller.userId ==>
                r == Err(CannotEdit) && unchanged(this)
      ensures id in old(posts) && old(posts)[id].author == caller.userId ==>
                var p := old(posts)[id];
                var q := Revise(p, title, content);
                if q.title == "" then
                  r == Err(ServerError) && unchanged(this)
                else if q == p then
                  r == Ok(Entry(id, p)) && unchanged(this)
                else
                  && r == Ok(Entry(id, q.(updatedAt := old(clock))))
                  && posts == old(posts)[id := r.value.post]
                  && clock == old(clock) + 1 && nextId == old(nextId)
    {
      if id !in posts {
        return Err(BlogNotFound);
      }
      var p := posts[id];
      if p.author != caller.userId {
        return Err(CannotEdit);
      }
      var q := Revise(p, title, content);
      assert WellFormed(q) <==> q.title != "";
      r := Save(id, q);
    }

    /** `blog.save()` for a stored post: validation rejects a post that is
        not well formed with 500; a post with no modified field is not
        written; otherwise the post is written with `updatedAt` set to the
        clock, which then advances. */
    method Save(id: PostId, q: Post) returns (r: Result<Entry>)
      requires Valid() && id in posts
      requires NoDuplicates(q.likes) && q.createdAt == posts[id].createdAt && q.updatedAt == posts[id].updatedAt
      modifies this
      ensures Valid()
      ensures !WellFormed(q) ==> r == Err(ServerError) && unchanged(this)
      ensures WellFormed(q) && q == old(posts)[id] ==> r == Ok(Entry(id, q)) && unchanged(this)
      ensures WellFormed(q) && q != old(posts)[id] ==>
                && r == Ok(Entry(id, q.(updatedAt := old(clock))))
                && posts == old(posts)[id := r.value.post]
                && clock == old(clock) + 1 && nextId == old(nextId)
    {
      if !WellFormed(q) {
        return Err(ServerError);
      }
      if q == posts[id] {
        return Ok(Entry(id, q));
      }
      var stamped := q.(updatedAt := clock);
      SaveKeepsConsistent(posts, clock, nextId, id, stamped);
      posts := posts[id := stamped];
      clock := clock + 1;
      r := Ok(Entry(id, stamped));
    }

    /** deleteBlog: 404 for an unknown id, 403 when the caller is not the
        author, otherwise exactly that post is removed. */
    method DeleteBlog(caller: Identity, id: PostId) returns (r: Result<()>)
      requires Valid()
      modifies this
      ensures Valid()
      ensures id !in old(posts) ==> r == Err(BlogNotFound) && unchanged(this)
      ensures id in old(posts) && old(posts)[id].author != caller.userId ==>
                r == Err(CannotDelete) && unchanged(this)
      ensures id in old(posts) && old(posts)[id].author == caller.userId ==>
                && r == Ok(())
                && posts == old(posts) - {id}
                && clock == old(clock) && nextId == old(nextId)
    {
      if id !in posts {
        return Err(BlogNotFound);
      }
      if posts[id].author != caller.userId {
        return Err(CannotDelete);
      }
      posts := posts - {id};
      r := Ok(());
    }

    /** toggleLike: 404 for an unknown id; otherwise, whoever the author is,
        the caller's first entry in the like list is spliced out when there
        is one and the caller is pushed at the end when there is none. An
        empty caller id does not cast to an object id, so the push fails with
        500 and nothing is saved. The answer carries the new like count and
        `likeIndex === -1`, which is whether the caller is in the list after
        the toggle. */
    method ToggleLike(caller: Identity, id: PostId) returns (r: Result<PostView>)
      requires Valid()
      modifies this
      ensures Valid()
      ensures id !in old(posts) ==> r == Err(BlogNotFound) && unchanged(this)
      ensures id in old(posts) && caller.userId == "" ==> r == Err(ServerError) && unchanged(this)
      ensures id in old(posts) && caller.userId != "" ==>
                var p := old(posts)[id];
                var p' := p.(likes := Toggled(p.likes, caller.userId), updatedAt := old(clock));
                && posts == old(posts)[id := p']
                && clock == old(clock) + 1 && nextId == old(nextId)
                && r == Ok(Project(id, p', caller.userId !in p.likes))
      ensures r.Ok? ==>
                && id in posts
                && r.value.likes == |posts[id].likes|
                && (r.value.isLikedByUser <==> caller.userId in posts[id].likes)
    {
      if id !in posts {
        return Err(BlogNotFound);
      }
      var p := posts[id];
      var likeIndex := FindIndex(p.likes, caller.userId);
      var likes;
      if likeIndex > -1 {
        SpliceRemovesFirst(p.likes, caller.userId, likeIndex);
        likes := p.likes[..likeIndex] + p.likes[likeIndex + 1..];
      } else {
        likes := p.likes + [caller.userId];
      }
      ToggleFlipsMembership(p.likes, caller.userId);
      ToggleKeepsNoDuplicates(p.likes, caller.userId);
      ToggleCount(p.likes, caller.userId);
      if caller.userId != "" {
        ToggleKeepsOthers(p.likes, caller.userId, "");
      }
      var saved := Save(id, p.(likes := likes));
      if saved.Err? {
        return Err(saved.failure);
      }
      r := Ok(Project(id, saved.value.post, likeIndex == -1));
    }

    /** The routes of routes/blogRoutes.js: the listing is mounted without
        the gate, so it always runs and never has a caller; every other
        route runs its handler only when the gate lets the request through,
        and a request the gate refuses gets the gate's 401 and changes
        nothing. */
    method Serve(header: Option<string>, verify: string -> Option<Claims>, req: Request) returns (r: Result<Response>)
      requires Valid()
      modifies this
      ensures Valid()
      ensures req.ListBlogs? ==>
                && unchanged(this) && r.Ok? && r.value.Listing?
                && IsListing(r.value.views, posts, None)
                && forall i :: 0 <= i < |r.value.views| ==> !r.value.views[i].isLikedByUser
      ensures !req.ListBlogs? && Authenticate(header, verify).Err? ==>
                r == Err(Authenticate(header, verify).failure) && unchanged(this)
      ensures !req.ListBlogs? && Authenticate(header, verify).Ok? ==>
                && Answers(req, Authenticate(header, verify).value, old(clock), old(posts), posts, r)
                && (r.Err? ==> r.failure.Status() != 401)
    {
      if req.ListBlogs? {
        var views := GetAllBlogs(None);
        return Ok(Listing(views));
      }
      var gate := Authenticate(header, verify);
      if gate.Err? {
        return Err(gate.failure);
      }
      r := Dispatch(gate.value, req);
    }

    /** A protected route's handler, run once for the identity the gate
        attached. Handlers never answer 401. */
    method Dispatch(caller: Identity, req: Request) returns (r: Result<Response>)
      requires Valid() && !req.ListBlogs?
      modifies this
      ensures Valid()
      ensures Answers(req, caller, old(clock), old(posts), posts, r)
      ensures r.Err? ==> r.failure.Status() != 401
    {
      match req {
      case CreateBlogRequest(title, content) =>
        var out := CreateBlog(caller, title, content);
        r := if out.Ok? then Ok(Created(out.value)) else Err(out.failure);
      case UpdateBlogRequest(id, title, content) =>
        ghost var before := posts;
        var out := UpdateBlog(caller, id, title, content);
        if out.Ok? {
          assert posts == before[id := out.value.post];
        }
        r := if out.Ok? then Ok(Updated(out.value)) else Err(out.failure);
      case DeleteBlogRequest(id) =>
        var out := DeleteBlog(caller, id);
        r := if out.Ok? then Ok(Deleted) else Err(out.failure);
      case ToggleLikeRequest(id) =>
        var out := ToggleLike(caller, id);
        r := if out.Ok? then Ok(Liked(out.value)) else Err(out.failure);
      }
      HandlersNeverAnswer401(req, caller, old(clock), old(posts), posts, r);
    }
  }

  /** A post created successfully heads the listing that follows. */
  method CreatedPostListsFirst(table: PostTable, caller: Identity, title: Option<string>, content: Option<string>,
                               viewer: Option<UserId>)
    returns (created: Result<Entry>, views: seq<PostView>)
    requires table.Valid()
    modifies table
    ensures created.Ok? ==> views != [] && views[0].id == created.value.id
  {
    created := table.CreateBlog(caller, title, content);
    views := table.GetAllBlogs(viewer);
    if created.Ok? {
      var id := created.value.id;
      assert Lists(views, id);
      var i :| 0 <= i < |views| && views[i].id == id;
    }
  }

  /** A second user likes and then unlikes a new post: one like and liked,
      then no likes and not liked. */
  method ExampleLikes(a: Identity, b: Identity, title: string, content: string)
    requires a.userId != "" && a.username != "" && b.userId != "" && b.userId != a.userId
    requires title != "" && Trimmed(title) && content != ""
  {
    var table := new PostTable();
    var created := table.CreateBlog(a, Some(title), Some(content));
    assert created.Ok?;
    var id := created.value.id;
    var liked := table.ToggleLike(b, id);
    assert liked.value.likes == 1 && liked.value.isLikedByUser;
    var unliked := table.ToggleLike(b, id);
    assert unliked.value.likes == 0 && !unliked.value.isLikedByUser;
  }

  /** A non-author's retitle is refused, and the author's keeps the
      content. */
  method ExampleEdits(a: Identity, b: Identity, title: string, content: string, newTitle: string)
    requires a.userId != "" && a.username != "" && b.userId != a.userId
    requires title != "" && Trimmed(title) && content != ""
    requires newTitle != "" && Trimmed(newTitle)
  {
    var table := new PostTable();
    var created := table.CreateBlog(a, Some(title), Some(content));
    assert created.Ok?;
    var id := created.value.id;
    var post := created.value.post;
    var denied := table.UpdateBlog(b, id, Some(newTitle), None);
    assert denied == Err(CannotEdit);
    assert table.posts[id] == post;
    assert Revise(post, Some(newTitle), None).content == content;
    var updated := table.UpdateBlog(a, id, Some(newTitle), None);
    assert updated.Ok? && updated.value.post.title == newTitle && updated.value.post.content == content;
  }
}
