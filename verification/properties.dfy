/**
 Properties of the blog as a whole: the state invariant every route keeps,
 what the admin guard and the form checks rule out, and the laws that relate
 several requests (logging out twice, registering twice, registering and
 then logging in, editing twice, deleting twice).
 */
module BlogProperties {
  import opened Passwords
  import opened Store
  import opened Forms
  import opened Blog

  lemma InitIsWf()
    ensures Wf(Init())
  {
  }

  // ------------------------------------------------- invariant, per route

  /** Replacing the user table and the session keeps the invariant when the
      old users stay, ids are positive, emails unique and the session names a
      stored user. */
  lemma WfWithUsers(st: State, users: map<Id, User>, session: Session)
    requires Wf(st)
    requires forall k :: k in st.users ==> k in users
    requires forall k :: k in users ==> 1 <= k
    requires UniqueEmails(users)
    requires SessionWf(session, users)
    ensures Wf(st.(users := users, session := session))
  {
  }

  /** Replacing the post table keeps the invariant when ids are positive,
      titles unique, authors stored users and no commented post is gone. */
  lemma WfWithPosts(st: State, posts: map<Id, BlogPost>)
    requires Wf(st)
    requires forall k :: k in posts ==> 1 <= k && posts[k].author in st.users
    requires UniqueTitles(posts)
    requires forall c :: c in st.comments ==> st.comments[c].post in posts
    ensures Wf(st.(posts := posts))
  {
  }

  /** Replacing the comment table keeps the invariant when every comment has
      a positive id, a stored commenter and a stored post. */
  lemma WfWithComments(st: State, comments: map<Id, Comment>)
    requires Wf(st)
    requires forall k :: k in comments ==>
               1 <= k && comments[k].commenter in st.users && comments[k].post in st.posts
    ensures Wf(st.(comments := comments))
  {
  }

  /** The unique email column admits a new user whose email no stored user has. */
  lemma EmailsStayUniqueOnInsert(users: map<Id, User>, after: map<Id, User>, id: Id, row: User)
    requires UniqueEmails(users)
    requires AddsRow(users, after, id, row)
    requires !EmailTaken(users, row.email)
    ensures UniqueEmails(after)
  {
    forall a, b | a in after && b in after && a != b
      ensures after[a].email != after[b].email
    {
      if a == id {
        assert b in users;
      } else if b == id {
        assert a in users;
      }
    }
  }

  /** A new user with an untaken email, logged in at once, keeps the invariant. */
  lemma AddUserKeepsWf(st: State, row: User)
    requires Wf(st)
    requires !EmailTaken(st.users, row.email)
    ensures var (id, users) := Insert(st.users, row);
            Wf(st.(users := users, session := LogIn(id)))
  {
    var (id, users) := Insert(st.users, row);
    assert forall k :: k in users ==> k == id || k in st.users;
    EmailsStayUniqueOnInsert(st.users, users, id, row);
    WfWithUsers(st, users, LogIn(id));
  }

  lemma RegisterPreservesWf(kdf: Kdf, st: State, req: Submission<RegisterForm>, salt: string)
    requires Wf(st)
    ensures Wf(Register(kdf, st, req, salt).state)
  {
    if !(req.Submitted? && ValidRegister(req.form)) || EmailTaken(st.users, req.form.email) {
      assert Register(kdf, st, req, salt).state == st;
    } else {
      var f := req.form;
      var row := User(f.name, f.email, Hash(kdf, f.password, salt));
      var (id, users) := Insert(st.users, row);
      assert Register(kdf, st, req, salt).state == st.(users := users, session := LogIn(id));
      AddUserKeepsWf(st, row);
    }
  }

  lemma LoginPreservesWf(kdf: Kdf, st: State, req: Submission<LoginForm>)
    requires Wf(st)
    ensures Wf(Login(kdf, st, req).state)
  {
  }

  lemma LogoutPreservesWf(st: State)
    requires Wf(st)
    ensures Wf(Logout(st).state)
  {
  }

  /** A new comment by a stored user on a stored post keeps the invariant. */
  lemma AddCommentKeepsWf(st: State, row: Comment)
    requires Wf(st)
    requires row.commenter in st.users && row.post in st.posts
    ensures Wf(st.(comments := Insert(st.comments, row).1))
  {
    var (c, comments) := Insert(st.comments, row);
    forall k | k in comments
      ensures 1 <= k && comments[k].commenter in st.users && comments[k].post in st.posts
    {
      if k != c {
        assert k in st.comments;
      }
    }
    WfWithComments(st, comments);
  }

  lemma ShowPostPreservesWf(st: State, postId: Id, req: Submission<CommentForm>)
    requires Wf(st)
    ensures Wf(ShowPost(st, postId, req).state)
  {
    if postId <= MaxRowId && postId in st.posts && req.Submitted? && ValidComment(req.form)
       && st.session.principal.Some? {
      var row := Comment(req.form.comment, postId, st.session.principal.value);
      var (c, comments) := Insert(st.comments, row);
      assert ShowPost(st, postId, req).state == st.(comments := comments);
      AddCommentKeepsWf(st, row);
    } else {
      assert ShowPost(st, postId, req).state == st;
    }
  }

  /** The unique title column admits a new row whose title no stored post has. */
  lemma TitlesStayUniqueOnInsert(posts: map<Id, BlogPost>, after: map<Id, BlogPost>, p: Id, row: BlogPost)
    requires UniqueTitles(posts)
    requires AddsRow(posts, after, p, row)
    requires !TitleTaken(posts, row.title)
    ensures UniqueTitles(after)
  {
    forall a, b | a in after && b in after && a != b
      ensures after[a].title != after[b].title
    {
      if a == p {
        assert b in posts;
      } else if b == p {
        assert a in posts;
      }
    }
  }

  /** ... and an update of one row whose new title no other post has. */
  lemma TitlesStayUniqueOnUpdate(posts: map<Id, BlogPost>, id: Id, row: BlogPost)
    requires UniqueTitles(posts)
    requires id in posts
    requires !TitleTaken(posts - {id}, row.title)
    ensures UniqueTitles(posts[id := row])
  {
    var after := posts[id := row];
    forall a, b | a in after && b in after && a != b
      ensures after[a].title != after[b].title
    {
      if a == id {
        assert b in posts - {id};
      } else if b == id {
        assert a in posts - {id};
      }
    }
  }

  lemma AddNewPostPreservesWf(isUrl: string -> bool, st: State, req: Submission<PostForm>, today: string)
    requires Wf(st)
    ensures Wf(AddNewPost(isUrl, st, req, today).state)
  {
    if AdminOnly(st.session) && req.Submitted? && ValidPost(isUrl, req.form)
       && !TitleTaken(st.posts, req.form.title) {
      var f := req.form;
      var row := BlogPost(f.title, f.subtitle, today, f.body, f.imgUrl, st.session.principal.value);
      var (p, posts) := Insert(st.posts, row);
      assert AddNewPost(isUrl, st, req, today).state == st.(posts := posts);
      forall k | k in posts
        ensures 1 <= k && posts[k].author in st.users
      {
        if k != p {
          assert k in st.posts;
        }
      }
      TitlesStayUniqueOnInsert(st.posts, posts, p, row);
      WfWithPosts(st, posts);
    } else {
      assert AddNewPost(isUrl, st, req, today).state == st;
    }
  }

  lemma EditPostPreservesWf(isUrl: string -> bool, st: State, postId: Id, req: Submission<PostForm>)
    requires Wf(st)
    ensures Wf(EditPost(isUrl, st, postId, req).state)
  {
    if AdminOnly(st.session) && postId <= MaxRowId && postId in st.posts
       && req.Submitted? && ValidPost(isUrl, req.form)
       && !TitleTaken(st.posts - {postId}, req.form.title) {
      var f := req.form;
      var edited := st.posts[postId].(title := f.title, subtitle := f.subtitle, imgUrl := f.imgUrl,
                                      author := st.session.principal.value, body := f.body);
      var posts := st.posts[postId := edited];
      assert EditPost(isUrl, st, postId, req).state == st.(posts := posts);
      TitlesStayUniqueOnUpdate(st.posts, postId, edited);
      WfWithPosts(st, posts);
    } else {
      assert EditPost(isUrl, st, postId, req).state == st;
    }
  }

  lemma DeletePostPreservesWf(st: State, postId: Id)
    requires Wf(st)
    ensures Wf(DeletePost(st, postId).state)
  {
    if AdminOnly(st.session) && postId <= MaxRowId && postId in st.posts
       && CommentsOf(st.comments, postId) == map[] {
      var posts := st.posts - {postId};
      assert DeletePost(st, postId).state == st.(posts := posts);
      forall c | c in st.comments
        ensures st.comments[c].post in posts
      {
        assert c !in CommentsOf(st.comments, postId);
      }
      WfWithPosts(st, posts);
    } else {
      assert DeletePost(st, postId).state == st;
    }
  }

  // ------------------------------------------------ invariant, any request

  lemma StepPreservesWf(env: Env, st: State, req: Request)
    requires Wf(st)
    ensures Wf(Step(env, st, req).state)
  {
    match req
    case ListPosts =>
    case SignUp(f, salt) => RegisterPreservesWf(env.kdf, st, f, salt);
    case SignIn(f) => LoginPreservesWf(env.kdf, st, f);
    case SignOut => LogoutPreservesWf(st);
    case ViewPost(id, f) => ShowPostPreservesWf(st, id, f);
    case NewPost(f, today) => AddNewPostPreservesWf(env.isUrl, st, f, today);
    case ChangePost(id, f) => EditPostPreservesWf(env.isUrl, st, id, f);
    case RemovePost(id) => DeletePostPreservesWf(st, id);
  }

  /** Every state the application reaches from an empty database keeps the
      invariant: unique emails, unique titles, stored authors and commenters,
      comments on stored posts, and a session whose flag agrees with its
      principal. */
  lemma {:induction false} RunPreservesWf(env: Env, st: State, reqs: seq<Request>)
    requires Wf(st)
    ensures Wf(Run(env, st, reqs))
    decreases |reqs|
  {
    if reqs != [] {
      StepPreservesWf(env, st, reqs[0]);
      RunPreservesWf(env, Step(env, st, reqs[0]).state, reqs[1..]);
    }
  }

  lemma ReachableIsWf(env: Env, reqs: seq<Request>)
    ensures Wf(Run(env, Init(), reqs))
  {
    InitIsWf();
    RunPreservesWf(env, Init(), reqs);
  }

  // ------------------------------------------- stored rows passed their forms

  predicate UsersPassedForm(users: map<Id, User>)
  {
    forall u :: u in users ==> DataRequired(users[u].name) && DataRequired(users[u].email)
  }

  /** The post form that would reproduce a stored post's fields. */
  function AsForm(q: BlogPost): PostForm
  {
    PostForm(q.title, q.subtitle, q.imgUrl, q.body)
  }

  predicate PostsPassedForm(isUrl: string -> bool, posts: map<Id, BlogPost>)
  {
    forall p :: p in posts ==> ValidPost(isUrl, AsForm(posts[p]))
  }

  predicate CommentsPassedForm(comments: map<Id, Comment>)
  {
    forall c :: c in comments ==> ValidComment(CommentForm(comments[c].content))
  }

  /** Every stored row holds what its form accepted: a user's name and email
      are present, a post is one the post form accepts, a comment is one the
      comment form accepts. */
  predicate RowsPassedForms(isUrl: string -> bool, st: State)
  {
    && UsersPassedForm(st.users)
    && PostsPassedForm(isUrl, st.posts)
    && CommentsPassedForm(st.comments)
  }

  lemma RegisterKeepsRowsPassedForms(isUrl: string -> bool, kdf: Kdf, st: State,
                                     req: Submission<RegisterForm>, salt: string)
    requires RowsPassedForms(isUrl, st)
    ensures RowsPassedForms(isUrl, Register(kdf, st, req, salt).state)
  {
    if !(req.Submitted? && ValidRegister(req.form)) || EmailTaken(st.users, req.form.email) {
      assert Register(kdf, st, req, salt).state == st;
    } else {
      var f := req.form;
      var row := User(f.name, f.email, Hash(kdf, f.password, salt));
      var (id, users) := Insert(st.users, row);
      assert Register(kdf, st, req, salt).state == st.(users := users, session := LogIn(id));
      forall u | u in users
        ensures DataRequired(users[u].name) && DataRequired(users[u].email)
      {
        if u != id {
          assert u in st.users;
        }
      }
    }
  }

  lemma ShowPostKeepsRowsPassedForms(isUrl: string -> bool, st: State, postId: Id,
                                     req: Submission<CommentForm>)
    requires RowsPassedForms(isUrl, st)
    ensures RowsPassedForms(isUrl, ShowPost(st, postId, req).state)
  {
    if postId > MaxRowId || postId !in st.posts {
    } else if !(req.Submitted? && ValidComment(req.form)) {
    } else if st.session.principal.None? {
    } else {
      var row := Comment(req.form.comment, postId, st.session.principal.value);
      var (c, comments) := Insert(st.comments, row);
      assert ShowPost(st, postId, req).state == st.(comments := comments);
      assert forall k :: k in comments ==> k == c || k in st.comments;
      assert CommentsPassedForm(comments);
    }
  }

  lemma AddNewPostKeepsRowsPassedForms(isUrl: string -> bool, st: State,
                                       req: Submission<PostForm>, today: string)
    requires RowsPassedForms(isUrl, st)
    ensures RowsPassedForms(isUrl, AddNewPost(isUrl, st, req, today).state)
  {
    if !AdminOnly(st.session) || !(req.Submitted? && ValidPost(isUrl, req.form))
       || TitleTaken(st.posts, req.form.title) {
      assert AddNewPost(isUrl, st, req, today).state == st;
    } else {
      var f := req.form;
      var row := BlogPost(f.title, f.subtitle, today, f.body, f.imgUrl, st.session.principal.value);
      var (p, posts) := Insert(st.posts, row);
      assert AddNewPost(isUrl, st, req, today).state == st.(posts := posts);
      assert AsForm(row) == f;
      forall k | k in posts
        ensures ValidPost(isUrl, AsForm(posts[k]))
      {
        if k != p {
          assert k in st.posts;
        }
      }
    }
  }

  lemma EditPostKeepsRowsPassedForms(isUrl: string -> bool, st: State, postId: Id,
                                     req: Submission<PostForm>)
    requires RowsPassedForms(isUrl, st)
    ensures RowsPassedForms(isUrl, EditPost(isUrl, st, postId, req).state)
  {
    if !AdminOnly(st.session) {
    } else if postId > MaxRowId || postId !in st.posts {
    } else if !(req.Submitted? && ValidPost(isUrl, req.form)) {
    } else if TitleTaken(st.posts - {postId}, req.form.title) {
    } else {
      var f := req.form;
      var edited := st.posts[postId].(title := f.title, subtitle := f.subtitle, imgUrl := f.imgUrl,
                                      author := st.session.principal.value, body := f.body);
      assert EditPost(isUrl, st, postId, req).state == st.(posts := st.posts[postId := edited]);
      assert AsForm(edited) == f;
      assert PostsPassedForm(isUrl, st.posts[postId := edited]);
    }
  }

  lemma StepKeepsRowsPassedForms(env: Env, st: State, req: Request)
    requires RowsPassedForms(env.isUrl, st)
    ensures RowsPassedForms(env.isUrl, Step(env, st, req).state)
  {
    match req
    case SignUp(f, salt) => RegisterKeepsRowsPassedForms(env.isUrl, env.kdf, st, f, salt);
    case ViewPost(id, f) => ShowPostKeepsRowsPassedForms(env.isUrl, st, id, f);
    case NewPost(f, today) => AddNewPostKeepsRowsPassedForms(env.isUrl, st, f, today);
    case ChangePost(id, f) => EditPostKeepsRowsPassedForms(env.isUrl, st, id, f);
    case _ =>
  }

  // ------------------------------------------------------- guards

  predicate ManagesPosts(req: Request)
  {
    req.NewPost? || req.ChangePost? || req.RemovePost?
  }

  /** Creating, editing and deleting posts are refused to everyone but user 1,
      before any lookup or change, whatever the input. */
  lemma AdminGuardRefuses(env: Env, st: State, req: Request)
    requires ManagesPosts(req)
    requires !AdminOnly(st.session)
    ensures Step(env, st, req) == Response(st, Forbidden)
  {
  }

  /** The post table changes only on a request by user 1. */
  lemma PostsChangeOnlyForAdmin(env: Env, st: State, req: Request)
    ensures Step(env, st, req).state.posts != st.posts ==> AdminOnly(st.session)
  {
  }

  /** Only a redirect can follow a change of state: a rendered page, a 404,
      a 403 or a failed commit leaves every table and the session as they were. */
  lemma OnlyRedirectsMutate(env: Env, st: State, req: Request)
    ensures !Step(env, st, req).outcome.Redirect? ==> Step(env, st, req).state == st
  {
  }

  /** The request carries a submitted form that its validators reject. */
  predicate FormRejected(env: Env, req: Request)
  {
    match req
    case SignUp(f, _) => f.Submitted? && !ValidRegister(f.form)
    case SignIn(f) => f.Submitted? && !ValidLogin(f.form)
    case ViewPost(_, f) => f.Submitted? && !ValidComment(f.form)
    case NewPost(f, _) => f.Submitted? && !ValidPost(env.isUrl, f.form)
    case ChangePost(_, f) => f.Submitted? && !ValidPost(env.isUrl, f.form)
    case _ => false
  }

  lemma RejectedFormChangesNothing(env: Env, st: State, req: Request)
    requires FormRejected(env, req)
    ensures Step(env, st, req).state == st
    ensures !Step(env, st, req).outcome.Redirect?
  {
  }

  // ----------------------------------------------- laws over two requests

  lemma LogoutIdempotent(st: State)
    ensures Logout(Logout(st).state) == Logout(st)
  {
  }

  /** A second registration with the same email creates no second account. */
  lemma RegisterSameEmailTwice(kdf: Kdf, st: State, first: RegisterForm, second: RegisterForm,
                               salt1: string, salt2: string)
    requires ValidRegister(first) && ValidRegister(second)
    requires first.email == second.email
    ensures var mid := Register(kdf, st, Submitted(first), salt1).state;
            Register(kdf, mid, Submitted(second), salt2) == Response(mid, Redirect(LoginRoute))
  {
    var r := Register(kdf, st, Submitted(first), salt1);
    if !EmailTaken(st.users, first.email) {
      var id := r.state.session.principal.value;
      assert r.state.users[id].email == second.email;
    }
  }

  /** The first account ever registered gets id 1 and is the admin. */
  lemma FirstUserIsAdmin(kdf: Kdf, st: State, f: RegisterForm, salt: string)
    requires st.users == map[]
    requires ValidRegister(f)
    ensures AdminOnly(Register(kdf, st, Submitted(f), salt).state.session)
  {
    assert !EmailTaken(st.users, f.email);
  }

  /** Registering and then logging in with the same email and a password the
      login form accepts logs in as the new account. */
  lemma RegisterThenLogin(kdf: Kdf, st: State, name: string, email: string, password: string, salt: string)
    requires Wf(st)
    requires ValidRegister(RegisterForm(name, email, password))
    requires ValidLogin(LoginForm(email, password))
    requires !EmailTaken(st.users, email)
    ensures var signedUp := Register(kdf, st, Submitted(RegisterForm(name, email, password)), salt);
            var signedIn := Login(kdf, Logout(signedUp.state).state, Submitted(LoginForm(email, password)));
            && signedIn.outcome == Redirect(Home)
            && signedIn.state.session == signedUp.state.session
  {
    var up := Register(kdf, st, Submitted(RegisterForm(name, email, password)), salt);
    RegisterPreservesWf(kdf, st, Submitted(RegisterForm(name, email, password)), salt);
    var id := up.state.session.principal.value;
    var out := Logout(up.state).state;
    assert out.users == up.state.users;
    assert FindByEmail(out.users, email) == Some(id);
  }

  /** A login whose password the stored credential rejects leaves the session
      as it was, even when the email is known. */
  lemma WrongPasswordKeepsSession(kdf: Kdf, st: State, f: LoginForm)
    requires Wf(st)
    requires ValidLogin(f)
    requires forall k :: k in st.users && st.users[k].email == f.email ==>
               !Check(kdf, st.users[k].password, f.password)
    ensures Login(kdf, st, Submitted(f)).state == st
  {
  }

  /** Adding one comment on a post adds exactly that comment to its thread. */
  lemma ThreadGrowsByOne(comments: map<Id, Comment>, after: map<Id, Comment>, c: Id, row: Comment)
    requires AddsRow(comments, after, c, row)
    ensures |CommentsOf(after, row.post)| == |CommentsOf(comments, row.post)| + 1
  {
    var before := CommentsOf(comments, row.post);
    var now := CommentsOf(after, row.post);
    forall k ensures k in now.Keys <==> k in before.Keys + {c} {
      if k != c && k in after {
        assert k in comments;
      }
    }
    assert now.Keys == before.Keys + {c};
  }

  /** A comment by a logged-in user on an existing post makes that post's
      thread exactly one comment longer; past the 64-bit id range the lookup
      fails first and nothing is added. */
  lemma CommentJoinsThread(st: State, postId: Id, f: CommentForm)
    requires postId in st.posts
    requires ValidComment(f)
    requires st.session.principal.Some?
    ensures var after := ShowPost(st, postId, Submitted(f)).state;
            postId <= MaxRowId ==>
              |CommentsOf(after.comments, postId)| == |CommentsOf(st.comments, postId)| + 1
    ensures postId > MaxRowId ==> ShowPost(st, postId, Submitted(f)) == Response(st, Fault)
  {
    if postId <= MaxRowId {
      var row := Comment(f.comment, postId, st.session.principal.value);
      var (c, comments) := Insert(st.comments, row);
      assert ShowPost(st, postId, Submitted(f)).state.comments == comments;
      ThreadGrowsByOne(st.comments, comments, c, row);
    }
  }

  /** Submitting the same edit twice is the same as submitting it once. */
  lemma EditIdempotent(isUrl: string -> bool, st: State, postId: Id, f: PostForm)
    ensures var once := EditPost(isUrl, st, postId, Submitted(f));
            once.outcome.Redirect? ==> EditPost(isUrl, once.state, postId, Submitted(f)) == once
  {
    var once := EditPost(isUrl, st, postId, Submitted(f));
    if once.outcome.Redirect? {
      assert once.state.posts - {postId} == st.posts - {postId};
      assert once.state.posts[postId := once.state.posts[postId]] == once.state.posts;
    }
  }

  /** A deleted post is gone: deleting it again is a 404. A post that has
      comments is never deleted, and an id past the 64-bit range is never
      looked up, so there every attempt fails the same way. */
  lemma DeleteTwiceNotFound(st: State, postId: Id)
    requires AdminOnly(st.session)
    ensures postId <= MaxRowId && CommentsOf(st.comments, postId) == map[] ==>
              DeletePost(DeletePost(st, postId).state, postId).outcome == NotFound
    ensures postId > MaxRowId || CommentsOf(st.comments, postId) != map[] ==>
              DeletePost(DeletePost(st, postId).state, postId) == DeletePost(st, postId)
  {
  }

  /** Commenting on a post makes it undeletable: the delete that follows an
      accepted comment fails and keeps the post. (Past the 64-bit id range
      both requests fail in the lookup, with the same effect.) */
  lemma CommentedPostCannotBeDeleted(st: State, postId: Id, f: CommentForm)
    requires AdminOnly(st.session)
    requires postId in st.posts && ValidComment(f)
    ensures var commented := ShowPost(st, postId, Submitted(f)).state;
            && DeletePost(commented, postId) == Response(commented, Fault)
            && postId in commented.posts
  {
    var commented := ShowPost(st, postId, Submitted(f)).state;
    if postId <= MaxRowId {
      var row := Comment(f.comment, postId, st.session.principal.value);
      var (c, comments) := Insert(st.comments, row);
      assert commented.comments == comments;
      assert c in CommentsOf(comments, postId);
    }
  }
}
