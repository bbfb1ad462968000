/**
 * The two API controllers. The post repository of the source is not
 * implemented, so the posts controller keeps its table itself: a map from
 * key to post and the next key the identity column will hand out. The caller
 * identity is the NameIdentifier claim of the request's token, passed in.
 */
module Controllers {
  import opened Wrappers
  import opened Models
  import opened Http
  import opened SecurePassword
  import opened SecureToken
  import opened Repositories

  /** The state of the post table. */
  datatype PostTable = PostTable(posts: map<int, Post>, nextId: int)

  /**
   * Every post sits under its own key, every key is below the next one to be
   * handed out, and every owner id is non-negative (create refuses callers
   * with a negative id).
   */
  predicate ValidTable(t: PostTable)
  {
    t.nextId >= 1
    && forall k :: k in t.posts ==> t.posts[k].id == k && 1 <= k < t.nextId && t.posts[k].userId >= 0
  }

  /** AutoMapper's UpdatePostDto -> Post map onto an existing post. */
  function MapUpdate(req: UpdatePostDto, post: Post): (p: Post)
    ensures p.id == post.id && p.userId == post.userId && p.createdAt == post.createdAt
    ensures p.title == req.title && p.text == req.text
  {
    post.(title := req.title, text := req.text)
  }

  /**
   * `CreatePostAsync` as a transition: a caller without a valid id is refused;
   * otherwise one post, owned by the caller, is added under the next key.
   */
  function CreatePost(t: PostTable, req: CreatePostDto, claim: Option<string>, now: Ticks)
    : (out: (Response<GetPostDto>, PostTable))
    ensures GetUserId(claim) < 0 ==> out == (Unauthorized, t)
    ensures GetUserId(claim) >= 0 ==>
      var t' := out.1;
      && t'.nextId == t.nextId + 1
      && t'.posts.Keys == t.posts.Keys + {t.nextId}
      && t'.posts[t.nextId].id == t.nextId
      && t'.posts[t.nextId].userId == GetUserId(claim)
      && t'.posts[t.nextId].title == req.title && t'.posts[t.nextId].text == req.text
      && t'.posts[t.nextId].createdAt == now
      && (forall k :: k in t.posts && k != t.nextId ==> t'.posts[k] == t.posts[k])
      && out.0 == Created(ToGetPostDto(t'.posts[t.nextId]))
    ensures ValidTable(t) ==> ValidTable(out.1)
    ensures ValidTable(t) && GetUserId(claim) >= 0 ==> |out.1.posts| == |t.posts| + 1
  {
    var caller := GetUserId(claim);
    if caller < 0 then (Unauthorized, t)
    else
      var p := Post(t.nextId, req.title, req.text, now, caller);
      (Created(ToGetPostDto(p)), PostTable(t.posts[t.nextId := p], t.nextId + 1))
  }

  /**
   * `UpdatePostAsync` as a transition: an absent key gives NotFound whoever
   * asks; a caller other than the owner gets Unauthorized; the owner's edit
   * rewrites title and text of that post alone.
   */
  function UpdatePost(t: PostTable, id: int, req: UpdatePostDto, claim: Option<string>)
    : (out: (Response<()>, PostTable))
    ensures id !in t.posts ==> out == (NotFound, t)
    ensures id in t.posts && GetUserId(claim) != t.posts[id].userId ==> out == (Unauthorized, t)
    ensures id in t.posts && GetUserId(claim) == t.posts[id].userId ==>
      && out.0 == NoContent
      && out.1.nextId == t.nextId
      && out.1.posts.Keys == t.posts.Keys
      && out.1.posts[id] == t.posts[id].(title := req.title, text := req.text)
      && forall k :: k in t.posts && k != id ==> out.1.posts[k] == t.posts[k]
    ensures ValidTable(t) ==> ValidTable(out.1)
  {
    if id !in t.posts then (NotFound, t)
    else
      var post := t.posts[id];
      if GetUserId(claim) != post.userId then (Unauthorized, t)
      else (NoContent, PostTable(t.posts[id := MapUpdate(req, post)], t.nextId))
  }

  /**
   * `DeletePostAsync` as a transition: NotFound for an absent key, Unauthorized
   * for a caller other than the owner, otherwise that post alone is removed.
   */
  function DeletePost(t: PostTable, id: int, claim: Option<string>): (out: (Response<()>, PostTable))
    ensures id !in t.posts ==> out == (NotFound, t)
    ensures id in t.posts && GetUserId(claim) != t.posts[id].userId ==> out == (Unauthorized, t)
    ensures id in t.posts && GetUserId(claim) == t.posts[id].userId ==>
      && out.0 == NoContent
      && out.1.nextId == t.nextId
      && out.1.posts.Keys == t.posts.Keys - {id}
      && forall k :: k in out.1.posts ==> out.1.posts[k] == t.posts[k]
    ensures ValidTable(t) ==> ValidTable(out.1)
  {
    if id !in t.posts then (NotFound, t)
    else
      var post := t.posts[id];
      if GetUserId(claim) != post.userId then (Unauthorized, t)
      else (NoContent, PostTable(t.posts - {id}, t.nextId))
  }

  /** A mutating request to the posts controller. */
  datatype PostRequest =
    | Create(createReq: CreatePostDto, createClaim: Option<string>, now: Ticks)
    | Update(updateId: int, updateReq: UpdatePostDto, updateClaim: Option<string>)
    | Delete(deleteId: int, deleteClaim: Option<string>)

  /** The table after one request. */
  function Step(t: PostTable, r: PostRequest): PostTable
  {
    match r
    case Create(req, claim, now) => CreatePost(t, req, claim, now).1
    case Update(id, req, claim) => UpdatePost(t, id, req, claim).1
    case Delete(id, claim) => DeletePost(t, id, claim).1
  }

  /** The table after a sequence of requests, handled one after another. */
  function Run(t: PostTable, rs: seq<PostRequest>): PostTable
    decreases |rs|
  {
    if rs == [] then t else Run(Step(t, rs[0]), rs[1..])
  }

  /** Any sequence of requests keeps the table invariant. */
  lemma {:induction false} RunPreservesValid(t: PostTable, rs: seq<PostRequest>)
    requires ValidTable(t)
    ensures ValidTable(Run(t, rs))
    ensures Run(t, rs).nextId >= t.nextId
    decreases |rs|
  {
    if rs != [] {
      RunPreservesValid(Step(t, rs[0]), rs[1..]);
    }
  }

  /**
   * Owners are permanent: a key present after any sequence of requests was
   * present before (keys are never reused) and its post has the same owner.
   */
  lemma {:induction false} RunKeepsOwners(t: PostTable, rs: seq<PostRequest>, id: int)
    requires ValidTable(t) && id < t.nextId
    ensures id in Run(t, rs).posts ==> id in t.posts && Run(t, rs).posts[id].userId == t.posts[id].userId
    decreases |rs|
  {
    if rs != [] {
      var t1 := Step(t, rs[0]);
      RunKeepsOwners(t1, rs[1..], id);
    }
  }

  /**
   * A caller whose id is the -1 sentinel, or any negative id, owns no stored
   * post, so its updates and deletes never change the table.
   */
  lemma SentinelOwnsNothing(t: PostTable, id: int, claim: Option<string>)
    requires ValidTable(t) && GetUserId(claim) < 0
    ensures forall req :: UpdatePost(t, id, req, claim).1 == t
    ensures DeletePost(t, id, claim).1 == t
  {
  }

  class PostsController {
    var posts: map<int, Post>
    var nextPostId: int

    /** The controller's table as a value. */
    function Table(): PostTable
      reads this
    {
      PostTable(posts, nextPostId)
    }

    ghost predicate Valid()
      reads this
    {
      ValidTable(Table())
    }

    constructor ()
      ensures Valid() && posts == map[]
    {
      posts := map[];
      nextPostId := 1;
    }

    /** Every post, as GetPostDto. */
    method GetAllPostsAsync() returns (r: Response<set<GetPostDto>>)
      ensures r.Ok?
      ensures forall d :: d in r.body <==> exists k :: k in posts && d == ToGetPostDto(posts[k])
    {
      r := Ok(set k | k in posts :: ToGetPostDto(posts[k]));
    }

    /** NotFound when the key is absent, otherwise Ok with that post. */
    method GetPostByIdAsync(id: int) returns (r: Response<GetPostDto>)
      ensures r == NotFound <==> id !in posts
      ensures id in posts ==> r == Ok(ToGetPostDto(posts[id]))
    {
      if id !in posts {
        return NotFound;
      }
      r := Ok(ToGetPostDto(posts[id]));
    }

    method CreatePostAsync(req: CreatePostDto, claim: Option<string>, now: Ticks) returns (r: Response<GetPostDto>)
      requires Valid()
      modifies this
      ensures Valid()
      ensures (r, Table()) == CreatePost(old(Table()), req, claim, now)
    {
      var currentUserId := GetUserId(claim);
      if currentUserId < 0 {
        return Unauthorized;
      }
      var newPost := Post(0, req.title, req.text, now, 0);
      newPost := newPost.(userId := currentUserId);
      // The insert gives the post the next key of the identity column.
      newPost := newPost.(id := nextPostId);
      posts := posts[nextPostId := newPost];
      nextPostId := nextPostId + 1;
      r := Created(ToGetPostDto(newPost));
    }

    method UpdatePostAsync(id: int, req: UpdatePostDto, claim: Option<string>) returns (r: Response<()>)
      requires Valid()
      modifies this
      ensures Valid()
      ensures (r, Table()) == UpdatePost(old(Table()), id, req, claim)
    {
      if id !in posts {
        return NotFound;
      }
      var post := posts[id];
      var currentUserId := GetUserId(claim);
      if currentUserId != post.userId {
        return Unauthorized;
      }
      posts := posts[id := MapUpdate(req, post)];
      r := NoContent;
    }

    method DeletePostAsync(id: int, claim: Option<string>) returns (r: Response<()>)
      requires Valid()
      modifies this
      ensures Valid()
      ensures (r, Table()) == DeletePost(old(Table()), id, claim)
    {
      if id !in posts {
        return NotFound;
      }
      var post := posts[id];
      var currentUserId := GetUserId(claim);
      if currentUserId != post.userId {
        return Unauthorized;
      }
      posts := posts - {id};
      r := NoContent;
    }
  }

  class UsersController {
    const repository: UserRepository
    const sha: Sha512

    constructor (repository: UserRepository, sha: Sha512)
      ensures this.repository == repository && this.sha == sha
    {
      this.repository := repository;
      this.sha := sha;
    }

    /** Every user, in table order, as GetUserDto. */
    method GetAllUsersAsync() returns (r: Response<seq<GetUserDto>>)
      ensures r.Ok? && |r.body| == |repository.users|
      ensures forall i :: 0 <= i < |repository.users| ==> r.body[i] == ToGetUserDto(repository.users[i])
    {
      var users := repository.GetAllUsersAsync();
      r := Ok(seq(|users|, i requires 0 <= i < |users| => ToGetUserDto(users[i])));
    }

    /** NotFound when no user has the key, otherwise Ok with the first that does. */
    method GetUserByIdAsync(id: int) returns (r: Response<GetUserDto>)
      ensures r == NotFound <==> forall i :: 0 <= i < |repository.users| ==> repository.users[i].id != id
      ensures r != NotFound ==>
        exists i :: (0 <= i < |repository.users| && repository.users[i].id == id
          && r == Ok(ToGetUserDto(repository.users[i])))
    {
      var user := repository.GetUserByIdAsync(id);
      if user.None? {
        return NotFound;
      }
      r := Ok(ToGetUserDto(user.value));
    }

    /**
     * Salts and hashes the password and stores the user under the next key.
     * No check for an existing username or email is made.
     */
    method RegisterUserAsync(req: RegisterUserDto) returns (r: Response<GetUserDto>)
      requires repository.Valid()
      modifies repository
      ensures repository.Valid()
      ensures |repository.users| == |old(repository.users)| + 1
      ensures repository.users[..|old(repository.users)|] == old(repository.users)
      ensures var u := repository.users[|old(repository.users)|];
        && u.id == old(repository.nextId)
        && u.username == req.username && u.email == req.email
        && |u.passwordSalt| == SaltLength
        && u.passwordHash == SaltAndHashPassword(sha, req.password, u.passwordSalt)
        && Verify(sha, req.password, u.passwordHash, u.passwordSalt) == Verified(true)
        && r == Created(ToGetUserDto(u))
      ensures repository.nextId == old(repository.nextId) + 1
      ensures repository.pendingChanges == 0
    {
      var newUser := FromRegisterUserDto(req);
      var salt := GenerateRandomSalt();
      newUser := newUser.(passwordSalt := salt[..]);
      newUser := newUser.(passwordHash := SaltAndHashPassword(sha, req.password, salt[..]));
      var stored := repository.RegisterUserAsync(Some(newUser));
      var _ := repository.SaveChangesAsync();
      VerifyRoundTrip(sha, req.password, salt[..]);
      r := Created(ToGetUserDto(stored.value));
    }

    /** Not implemented: answers Ok and touches nothing. */
    method LoginUserAsync(req: LoginUserDto) returns (r: Response<()>)
      ensures r == OkEmpty
    {
      r := OkEmpty;
    }

    /** Not implemented: answers Ok and touches nothing. */
    method UpdateUser(id: int) returns (r: Response<()>)
      ensures r == OkEmpty
    {
      r := OkEmpty;
    }

    /** Not implemented: answers Ok and touches nothing. */
    method DeleteUser(id: int) returns (r: Response<()>)
      ensures r == OkEmpty
    {
      r := OkEmpty;
    }
  }
}
