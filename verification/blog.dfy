/**
 The blog's route handlers, each a pure transition from a state and the
 request's input to a new state and an outcome. Rendering, flashed notices
 and URL building are reduced to the `Outcome` datatype.

 A handler that validates a form takes a `Submission`: `NotSubmitted` for a
 GET, `Submitted(form)` for a POST carrying the bound form fields. A form's
 `validate_on_submit()` is `Submitted(form)` with a valid form.
 */
module Blog {
  import opened Passwords
  import opened Store
  import opened Forms

  datatype Submission<F> = NotSubmitted | Submitted(form: F)

  /** Where a redirect points. */
  datatype Route = Home | LoginRoute | PostRoute(post: Id)

  /** Which template is rendered, with the data the route hands to it. */
  datatype Page =
    | IndexPage(listing: seq<(Id, BlogPost)>)
    | RegisterPage
    | LoginPage
    | PostPage(id: Id, shown: BlogPost, thread: map<Id, Comment>)
    | MakePostPage(isEdit: bool)

  /** `NotFound` and `Forbidden` are the 404 and 403 aborts; `Fault` is the
      500 of a failed commit (a unique or NOT NULL column violation) or of an
      id too large for the database to look up. */
  datatype Outcome = Redirect(to: Route) | Render(page: Page) | NotFound | Forbidden | Fault

  datatype Response = Response(state: State, outcome: Outcome)

  /** The `admin_only` guard: someone is authenticated and their id is 1. */
  predicate AdminOnly(session: Session)
  {
    session.principal.Some? && session.principal.value == AdminId
  }

  /** The session after `login_user(user)` and `session['logged_in'] = True`. */
  function LogIn(id: Id): Session
  {
    Session(Some(id), true)
  }

  // ------------------------------------------------------------ GET /

  function GetAllPosts(st: State): (r: Response)
    ensures r.state == st
    ensures r.outcome.Render? && r.outcome.page.IndexPage?
    ensures |r.outcome.page.listing| == |st.posts|
    ensures forall i :: 0 <= i < |r.outcome.page.listing| ==>
              var (k, p) := r.outcome.page.listing[i]; k in st.posts && st.posts[k] == p
    ensures forall i, j :: 0 <= i < j < |r.outcome.page.listing| ==>
              r.outcome.page.listing[i].0 < r.outcome.page.listing[j].0
  {
    Response(st, Render(IndexPage(PostsInIdOrder(st.posts))))
  }

  // ------------------------------------------------------- /register

  function Register(kdf: Kdf, st: State, req: Submission<RegisterForm>, salt: string): (r: Response)
    // the form is shown again and nothing changes
    ensures !(req.Submitted? && ValidRegister(req.form)) ==>
              r == Response(st, Render(RegisterPage))
    // an existing email: no second account, sent to the login page
    ensures req.Submitted? && ValidRegister(req.form) && EmailTaken(st.users, req.form.email) ==>
              r == Response(st, Redirect(LoginRoute))
    // a fresh email: exactly one new user, logged in at once
    ensures req.Submitted? && ValidRegister(req.form) && !EmailTaken(st.users, req.form.email) ==>
              && r.outcome == Redirect(Home)
              && r.state.posts == st.posts
              && r.state.comments == st.comments
              && r.state.session.loggedIn
              && r.state.session.principal.Some?
              && var id := r.state.session.principal.value;
                 && AddsRow(st.users, r.state.users, id,
                            User(req.form.name, req.form.email, Hash(kdf, req.form.password, salt)))
                 && Check(kdf, r.state.users[id].password, req.form.password)
  {
    if !(req.Submitted? && ValidRegister(req.form)) then
      Response(st, Render(RegisterPage))
    else
      var f := req.form;
      if FindByEmail(st.users, f.email).Some? then
        Response(st, Redirect(LoginRoute))
      else
        var (id, users') := Insert(st.users, User(f.name, f.email, Hash(kdf, f.password, salt)));
        Response(st.(users := users', session := LogIn(id)), Redirect(Home))
  }

  // ---------------------------------------------------------- /login

  function Login(kdf: Kdf, st: State, req: Submission<LoginForm>): (r: Response)
    // only the session can change
    ensures r.state.users == st.users && r.state.posts == st.posts
    ensures r.state.comments == st.comments
    ensures !(req.Submitted? && ValidLogin(req.form)) ==>
              r == Response(st, Render(LoginPage))
    // unknown email: back to the login route, session untouched
    ensures req.Submitted? && ValidLogin(req.form) && !EmailTaken(st.users, req.form.email) ==>
              r == Response(st, Redirect(LoginRoute))
    // the account with that email does not accept the password
    ensures req.Submitted? && ValidLogin(req.form) && EmailTaken(st.users, req.form.email)
            && (forall k :: k in st.users && st.users[k].email == req.form.email ==>
                  !Check(kdf, st.users[k].password, req.form.password)) ==>
              r == Response(st, Render(LoginPage))
    // the account accepts the password: logged in as that account
    ensures req.Submitted? && ValidLogin(req.form) && EmailTaken(st.users, req.form.email)
            && (forall k :: k in st.users && st.users[k].email == req.form.email ==>
                  Check(kdf, st.users[k].password, req.form.password)) ==>
              && r.outcome == Redirect(Home)
              && r.state.session.loggedIn
              && r.state.session.principal.Some?
              && r.state.session.principal.value in st.users
              && st.users[r.state.session.principal.value].email == req.form.email
    // whenever the session changes, it is to a user whose password matched
    ensures r.state.session != st.session ==>
              && req.Submitted? && ValidLogin(req.form)
              && r.state.session.loggedIn
              && r.state.session.principal.Some?
              && var id := r.state.session.principal.value;
                 id in st.users && st.users[id].email == req.form.email
                 && Check(kdf, st.users[id].password, req.form.password)
  {
    if !(req.Submitted? && ValidLogin(req.form)) then
      Response(st, Render(LoginPage))
    else
      var f := req.form;
      match FindByEmail(st.users, f.email)
      case None => Response(st, Redirect(LoginRoute))
      case Some(id) =>
        if Check(kdf, st.users[id].password, f.password) then
          Response(st.(session := LogIn(id)), Redirect(Home))
        else
          Response(st, Render(LoginPage))
  }

  // --------------------------------------------------------- /logout

  function Logout(st: State): (r: Response)
    ensures r.state.users == st.users && r.state.posts == st.posts
    ensures r.state.comments == st.comments
    ensures r.state.session.principal.None? && !r.state.session.loggedIn
    ensures r.outcome == Redirect(Home)
  {
    Response(st.(session := Session(None, false)), Redirect(Home))
  }

  // ------------------------------------------------ /post/<post_id>

  function ShowPost(st: State, postId: Id, req: Submission<CommentForm>): (r: Response)
    // users, posts and the session never change
    ensures r.state.users == st.users && r.state.posts == st.posts
    ensures r.state.session == st.session
    // an id past the 64-bit range fails in the lookup itself
    ensures postId > MaxRowId ==> r == Response(st, Fault)
    ensures postId <= MaxRowId && postId !in st.posts ==> r == Response(st, NotFound)
    ensures postId <= MaxRowId && postId in st.posts && !(req.Submitted? && ValidComment(req.form)) ==>
              && r.state == st
              && r.outcome.Render? && r.outcome.page.PostPage?
              && r.outcome.page.shown == st.posts[postId]
              && r.outcome.page.thread == CommentsOf(st.comments, postId)
    ensures postId <= MaxRowId && postId in st.posts && req.Submitted? && ValidComment(req.form)
            && st.session.principal.None? ==>
              r == Response(st, Redirect(LoginRoute))
    // exactly one new comment, by the principal, on this post
    ensures postId <= MaxRowId && postId in st.posts && req.Submitted? && ValidComment(req.form)
            && st.session.principal.Some? ==>
              && r.outcome == Redirect(PostRoute(postId))
              && |r.state.comments| == |st.comments| + 1
              && exists c :: AddsRow(st.comments, r.state.comments, c,
                                     Comment(req.form.comment, postId, st.session.principal.value))
  {
    if postId > MaxRowId then
      Response(st, Fault)
    else if postId !in st.posts then
      Response(st, NotFound)
    else if !(req.Submitted? && ValidComment(req.form)) then
      Response(st, Render(PostPage(postId, st.posts[postId], CommentsOf(st.comments, postId))))
    else if st.session.principal.None? then
      Response(st, Redirect(LoginRoute))
    else
      var row := Comment(req.form.comment, postId, st.session.principal.value);
      var (c, comments') := Insert(st.comments, row);
      Response(st.(comments := comments'), Redirect(PostRoute(postId)))
  }

  // -------------------------------------------------------- /new-post

  function AddNewPost(isUrl: string -> bool, st: State, req: Submission<PostForm>, today: string): (r: Response)
    ensures !AdminOnly(st.session) ==> r == Response(st, Forbidden)
    ensures AdminOnly(st.session) && !(req.Submitted? && ValidPost(isUrl, req.form)) ==>
              r == Response(st, Render(MakePostPage(false)))
    // the unique title column refuses the row
    ensures AdminOnly(st.session) && req.Submitted? && ValidPost(isUrl, req.form)
            && TitleTaken(st.posts, req.form.title) ==>
              r == Response(st, Fault)
    // exactly one new post, written by the admin
    ensures AdminOnly(st.session) && req.Submitted? && ValidPost(isUrl, req.form)
            && !TitleTaken(st.posts, req.form.title) ==>
              && r.outcome == Redirect(Home)
              && r.state.users == st.users
              && r.state.comments == st.comments
              && r.state.session == st.session
              && |r.state.posts| == |st.posts| + 1
              && exists p :: AddsRow(st.posts, r.state.posts, p,
                                     BlogPost(req.form.title, req.form.subtitle, today,
                                              req.form.body, req.form.imgUrl, AdminId))
  {
    if !AdminOnly(st.session) then
      Response(st, Forbidden)
    else if !(req.Submitted? && ValidPost(isUrl, req.form)) then
      Response(st, Render(MakePostPage(false)))
    else
      var f := req.form;
      var row := BlogPost(f.title, f.subtitle, today, f.body, f.imgUrl, st.session.principal.value);
      if TitleTaken(st.posts, f.title) then
        Response(st, Fault)
      else
        var (p, posts') := Insert(st.posts, row);
        Response(st.(posts := posts'), Redirect(Home))
  }

  // --------------------------------------------- /edit-post/<post_id>

  function EditPost(isUrl: string -> bool, st: State, postId: Id, req: Submission<PostForm>): (r: Response)
    // the guard runs before the post is looked up
    ensures !AdminOnly(st.session) ==> r == Response(st, Forbidden)
    // an id past the 64-bit range fails in the lookup itself
    ensures AdminOnly(st.session) && postId > MaxRowId ==> r == Response(st, Fault)
    ensures AdminOnly(st.session) && postId <= MaxRowId && postId !in st.posts ==>
              r == Response(st, NotFound)
    ensures AdminOnly(st.session) && postId <= MaxRowId && postId in st.posts
            && !(req.Submitted? && ValidPost(isUrl, req.form)) ==>
              r == Response(st, Render(MakePostPage(true)))
    // another post already has the new title
    ensures AdminOnly(st.session) && postId <= MaxRowId && postId in st.posts
            && req.Submitted? && ValidPost(isUrl, req.form)
            && TitleTaken(st.posts - {postId}, req.form.title) ==>
              r == Response(st, Fault)
    ensures AdminOnly(st.session) && postId <= MaxRowId && postId in st.posts
            && req.Submitted? && ValidPost(isUrl, req.form)
            && !TitleTaken(st.posts - {postId}, req.form.title) ==>
              && r.outcome == Redirect(PostRoute(postId))
              && r.state.users == st.users
              && r.state.comments == st.comments
              && r.state.session == st.session
              && r.state.posts.Keys == st.posts.Keys
              && (forall k :: k in st.posts && k != postId ==> r.state.posts[k] == st.posts[k])
              && var (before, after) := (st.posts[postId], r.state.posts[postId]);
                 && after.date == before.date
                 && after.title == req.form.title
                 && after.subtitle == req.form.subtitle
                 && after.imgUrl == req.form.imgUrl
                 && after.body == req.form.body
                 && after.author == AdminId
  {
    if !AdminOnly(st.session) then
      Response(st, Forbidden)
    else if postId > MaxRowId then
      Response(st, Fault)
    else if postId !in st.posts then
      Response(st, NotFound)
    else if !(req.Submitted? && ValidPost(isUrl, req.form)) then
      Response(st, Render(MakePostPage(true)))
    else
      var f := req.form;
      var edited := st.posts[postId].(title := f.title, subtitle := f.subtitle, imgUrl := f.imgUrl,
                                      author := st.session.principal.value, body := f.body);
      if TitleTaken(st.posts - {postId}, f.title) then
        Response(st, Fault)
      else
        Response(st.(posts := st.posts[postId := edited]), Redirect(PostRoute(postId)))
  }

  // ------------------------------------------------ /delete/<post_id>

  /** The post's comments are not deleted with it: the relationship has no
      delete cascade, so the ORM sets each comment's `post_id` to NULL, and
      the column is NOT NULL (its annotation is `Mapped[int]`). The commit
      then fails, and a post that has comments cannot be deleted. */
  function DeletePost(st: State, postId: Id): (r: Response)
    ensures !AdminOnly(st.session) ==> r == Response(st, Forbidden)
    // an id past the 64-bit range fails in the lookup itself
    ensures AdminOnly(st.session) && postId > MaxRowId ==> r == Response(st, Fault)
    ensures AdminOnly(st.session) && postId <= MaxRowId && postId !in st.posts ==>
              r == Response(st, NotFound)
    ensures AdminOnly(st.session) && postId <= MaxRowId && postId in st.posts && CommentsOf(st.comments, postId) != map[] ==>
              r == Response(st, Fault)
    ensures AdminOnly(st.session) && postId <= MaxRowId && postId in st.posts && CommentsOf(st.comments, postId) == map[] ==>
              && r.outcome == Redirect(Home)
              && r.state.users == st.users
              && r.state.comments == st.comments
              && r.state.session == st.session
              && r.state.posts.Keys == st.posts.Keys - {postId}
              && |r.state.posts| == |st.posts| - 1
              && (forall k :: k in r.state.posts ==> r.state.posts[k] == st.posts[k])
  {
    if !AdminOnly(st.session) then
      Response(st, Forbidden)
    else if postId > MaxRowId then
      Response(st, Fault)
    else if postId !in st.posts then
      Response(st, NotFound)
    else if CommentsOf(st.comments, postId) != map[] then
      Response(st, Fault)
    else
      Response(st.(posts := st.posts - {postId}), Redirect(Home))
  }

  // -------------------------------------------------------- dispatch

  /** What the application is configured with: the password derivation and
      the URL check of the post form. */
  datatype Env = Env(kdf: Kdf, isUrl: string -> bool)

  /** One request to one of the modelled routes, with the input the
      environment supplies (the random salt, today's date as text). */
  datatype Request =
    | ListPosts
    | SignUp(registration: Submission<RegisterForm>, salt: string)
    | SignIn(credentials: Submission<LoginForm>)
    | SignOut
    | ViewPost(viewed: Id, comment: Submission<CommentForm>)
    | NewPost(draft: Submission<PostForm>, today: string)
    | ChangePost(changed: Id, revision: Submission<PostForm>)
    | RemovePost(removed: Id)

  function Step(env: Env, st: State, req: Request): Response
  {
    match req
    case ListPosts => GetAllPosts(st)
    case SignUp(f, salt) => Register(env.kdf, st, f, salt)
    case SignIn(f) => Login(env.kdf, st, f)
    case SignOut => Logout(st)
    case ViewPost(id, f) => ShowPost(st, id, f)
    case NewPost(f, today) => AddNewPost(env.isUrl, st, f, today)
    case ChangePost(id, f) => EditPost(env.isUrl, st, id, f)
    case RemovePost(id) => DeletePost(st, id)
  }

  /** The state after serving a sequence of requests in order. */
  function Run(env: Env, st: State, reqs: seq<Request>): State
    decreases |reqs|
  {
    if reqs == [] then st else Run(env, Step(env, st, reqs[0]).state, reqs[1..])
  }
}
