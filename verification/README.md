# Blog request handling, modelled in Dafny

This project models the request-handling core of a small Flask blog. The blog
has users, blog posts and comments, kept in three SQLAlchemy tables, plus a
session. The session holds the logged-in principal and a separate
`logged_in` flag. The model is a state machine over an abstract store:

- `State` holds three maps keyed by integer id (`users`, `posts`,
  `comments`) and a `Session(principal, loggedIn)`.
- Each route handler of `main.py` is a pure function. It takes the state and
  the request's input and returns a `Response(state, outcome)`. An outcome is
  `Redirect(route)`, `Render(page)`, `NotFound` (404), `Forbidden` (403) or
  `Fault` (a 500 raised when a commit breaks a unique or NOT NULL column, or
  when a post id is too large for the database to look up).
- Each WTForms form of `forms.py` is a validity predicate. A handler takes its
  `validate_on_submit()` branch only for `Submitted(form)` with a valid form.
- The `admin_only` decorator is the predicate `AdminOnly`: someone is
  authenticated and their id is 1. The three post-managing handlers check it
  before doing anything else.

Files:

- `passwords.dfy`: the stored credential, plus `Hash` and `Check` over a
  key-derivation function that is passed in as a parameter.
- `store.dfy`: rows, tables and id allocation, the email lookup, the post
  listing, and the state invariant `Wf`.
- `forms.dfy`: the `DataRequired` and `Length` validators and the four forms.
- `blog.dfy`: the eight route handlers, and `Step`/`Run`, which dispatch
  requests to them.
- `properties.dfy`: lemmas that relate several requests, and the invariants
  that every request keeps.

Modelling choices. They are taken from the code, except the first and the
last, which are SQLite's behaviour (the engine is assumed, see
"## Left out"), and the second, which is the model's own:

- A new row gets one more than the largest id in its table, and 1 when the
  table is empty. This is SQLite's rule for an integer primary key without
  AUTOINCREMENT. So the first account registered is user 1, the admin.
- Looking up a user by email picks the matching row with the lowest id. The
  code takes whichever row the engine returns first (`result.scalar()` with
  no ORDER BY), so the lowest-id choice is the model's own. It makes no
  difference: the email column is unique, so there is one matching user.
- A new or edited post whose title another post already has breaks the
  unique `title` column. The commit fails, the request ends in a 500
  (`Fault`), and no change is kept.
- `admin_only` wraps the view inside the route. So on `/edit-post/<id>` and
  `/delete/<id>` a non-admin gets 403 even when the id does not exist.
- `show_post` looks up the post before it reads the form. So an unknown id
  gives 404 whether or not anyone is logged in.
- Editing a post sets its author to the current user every time. The model
  keeps this behaviour and states it in `EditPost`'s contract.
- `DataRequired` accepts a field that contains a character other than
  Python whitespace. This is the same as the validator's own test, that
  `data` and `data.strip()` are both non-empty. `DataRequiredIsStripTest`
  proves the two agree.
- `BlogPost.comments` declares no delete cascade, so deleting a post makes
  the ORM set each of its comments' `post_id` to NULL. That column is
  annotated `Mapped[int]`, which makes it NOT NULL, so the commit fails.
  A post that has comments therefore cannot be deleted: the request ends in
  a 500 (`Fault`) and the post stays. A post without comments is removed.
  So every stored comment always belongs to a stored post, and the invariant
  `Wf` says so.
- A post id in a URL may be any digit string. One larger than 2^63 - 1,
  SQLite's largest INTEGER (`MaxRowId`), cannot be bound as a query
  parameter: the driver raises an overflow error where the handler looks up
  the post, and the request ends in a 500 (`Fault`) instead of a 404. This
  holds on `/post/<id>`, and for the admin on `/edit-post/<id>` and
  `/delete/<id>`.

## Model

| member | source | states |
|---|---|---|
| Passwords.Hash | main.py:127-131 | The stored credential records the requested pbkdf2:sha256 method and the given salt, and it verifies against the password it was made from |
| Passwords.Check | main.py:156 | Defines the password check: the derivation of the candidate under the stored method and salt equals the stored digest |
| Passwords.CheckAcceptsOnlyCollisions | main.py:156 | A fresh credential accepts another password exactly when the derivation maps that password to the same digest |
| Store.Insert | main.py:133-135 | Adding a row adds exactly one row under a new id. The new id is positive, is 1 for an empty table, and leaves every existing row as it was |
| Store.Init | main.py:100-101 | Defines the empty database that `create_all` produces, with nobody logged in |
| Store.UniqueEmails | main.py:69 | Defines the unique `email` column: no two users share an email |
| Store.UniqueTitles | main.py:78 | Defines the unique `title` column: no two posts share a title |
| Store.Wf | main.py:66-97 | Defines the state invariant: positive ids, both unique columns, authors, commenters and commented posts that are stored rows (the three foreign keys, which the handlers keep), and a `logged_in` flag that agrees with the principal |
| Store.FreshId | main.py:67 | The next primary key is larger than every id in the table, so it is not in use, and it is 1 for an empty table |
| Store.FindByEmail | main.py:121-122 | The lookup finds a user exactly when one has that email, and the row it returns has that email. With unique emails it returns that one user |
| Store.CommentsOf | main.py:87 | A post's comments are exactly the stored comments whose post is that post |
| Store.PostsInIdOrder | main.py:108-109 | The listing has one entry per post, each entry matches the stored post, and ids strictly increase, so no post is listed twice |
| Store.PostsInIdOrderComplete | main.py:108-109 | Every stored post appears in the listing |
| Forms.IsWhitespace | forms.py:9 | Defines Python's `str.isspace()` characters, the ones `strip()` removes in the DataRequired test |
| Forms.DataRequired | forms.py:9-31 | Defines the DataRequired validator: the field has some character that is not whitespace |
| Forms.LengthAtLeast | forms.py:26 | Defines `Length(min=n)`: the raw field has at least n characters |
| Forms.Strip | forms.py:9 | Python's strip(): the result is the input with a whitespace prefix and a whitespace suffix cut off. It starts and ends with a visible character, so exactly the leading and trailing whitespace is gone. It is empty exactly when the input is all whitespace |
| Forms.ValidPost | forms.py:8-12 | Defines CreatePostForm's validity: all four fields required, and the image link must also pass the URL check |
| Forms.ValidRegister | forms.py:17-20 | Defines RegisterForm's validity: name, email and password required, with no length rule |
| Forms.ValidLogin | forms.py:24-26 | Defines LoginForm's validity: email required, and password required and at least ten characters long |
| Forms.ValidComment | forms.py:30-31 | Defines CommentForm's validity: the comment text is required |
| Forms.DataRequiredIffVisible | forms.py:9 | DataRequired holds exactly when the field has a character that is not whitespace |
| Forms.DataRequiredIsStripTest | forms.py:18-20 | DataRequired holds exactly when the field and its Python strip() are both non-empty |
| Forms.ShortPasswordRegistersButCannotLogIn | forms.py:20-26 | A visible password shorter than ten characters passes the register form and fails the login form |
| Forms.SomeRegisteredPasswordCannotLogIn | forms.py:17-27 | Some registration the register form accepts has a password the login form rejects |
| Blog.AdminOnly | main.py:23-29 | Defines the admin guard: someone is authenticated and their id is 1 |
| Blog.LogIn | main.py:136-137 | Defines the session after `login_user` and `session['logged_in'] = True`: the user is the principal and the flag is set |
| Blog.Step | main.py:106-251 | Defines one request: it is dispatched to the handler of its route |
| Blog.Run | main.py:106-251 | Defines a sequence of requests: each is served in turn on the state the previous one left |
| Blog.GetAllPosts | main.py:106-111 | The home page lists every post once, with its stored content, and changes nothing |
| Blog.Register | main.py:115-140 | If the form is not submitted or not valid, the page is rendered again and nothing changes. A taken email redirects to login and changes nothing. A fresh email adds exactly one user, stored with the hash of the password, logs that user in with `logged_in` set, and leaves posts and comments alone |
| Blog.Login | main.py:144-162 | Only the session can change. An invalid form renders the page again. An unknown email redirects to login. A rejected password renders the page again with the session unchanged. An accepted password logs in as the account with that email. The session changes only to a user whose password matched |
| Blog.Logout | main.py:165-169 | From any state, the principal is cleared, `logged_in` is false, the tables are untouched, and the request redirects home |
| Blog.ShowPost | main.py:176-198 | Users, posts and session never change. An id past 2^63 - 1 gives a 500 and an unknown post gives 404. Without a valid submission, the post is rendered with its comments. An anonymous submission redirects to login and adds nothing. Otherwise exactly one comment is added, with the principal as commenter and this post as its post, and the request redirects back to the post |
| Blog.AddNewPost | main.py:202-218 | A non-admin gets 403 and nothing changes. Without a valid submission the form is rendered again. A taken title gives a 500 with nothing kept. Otherwise exactly one post is added with the submitted fields, the given date and the admin as author, and nothing else changes |
| Blog.EditPost | main.py:222-241 | A non-admin gets 403 before the lookup. For the admin, an id past 2^63 - 1 gives a 500 and an unknown id gives 404. Without a valid submission the form is rendered again. A title held by another post gives a 500. Otherwise the post keeps its id and date, takes the submitted title, subtitle, image link and body, and gets the admin as author. Every other post, the comments and the users stay the same |
| Blog.DeletePost | main.py:245-251 | A non-admin gets 403. For the admin, an id past 2^63 - 1 gives a 500 and an unknown id gives 404. A post that has comments gives a 500 and nothing changes, because the commit would null their NOT NULL `post_id`. Otherwise exactly that post is removed, and the other posts, users, comments and session are unchanged |
| BlogProperties.AdminGuardRefuses | main.py:23-29 | Every create, edit or delete request by anyone but user 1 gets 403 with the state unchanged, whatever the input |
| BlogProperties.PostsChangeOnlyForAdmin | main.py:202-251 | No request changes the post table unless user 1 is logged in |
| BlogProperties.OnlyRedirectsMutate | main.py:115-251 | A request that ends in a rendered page, a 404, a 403 or a 500 leaves the whole state unchanged |
| BlogProperties.RejectedFormChangesNothing | main.py:118-233 | A submitted form that fails validation changes no state, on each of the five form-gated routes |
| BlogProperties.LogoutIdempotent | main.py:165-169 | Logging out twice gives the same result as logging out once |
| BlogProperties.RegisterSameEmailTwice | main.py:121-125 | A second registration with an email just registered changes nothing and redirects to login |
| BlogProperties.FirstUserIsAdmin | main.py:26 | The first account registered into an empty user table passes the admin guard |
| BlogProperties.RegisterThenLogin | main.py:127-159 | After registering, logging out and logging in with the same email and password, the user is logged in as the new account |
| BlogProperties.WrongPasswordKeepsSession | main.py:156-161 | A login whose password no account with that email accepts leaves the state, session included, unchanged |
| BlogProperties.CommentJoinsThread | main.py:186-193 | An accepted comment makes the post's comment list exactly one longer. For an id past 2^63 - 1 the request is a 500 and nothing changes |
| BlogProperties.ThreadGrowsByOne | main.py:87 | Adding one comment on a post adds exactly one entry to that post's comment list |
| BlogProperties.EditIdempotent | main.py:233-240 | Applying the same successful edit a second time changes nothing further |
| BlogProperties.DeleteTwiceNotFound | main.py:248-250 | For the admin, deleting a post without comments a second time gives 404. For a post with comments, or an id past 2^63 - 1, the second attempt gives the same 500 as the first |
| BlogProperties.CommentedPostCannotBeDeleted | main.py:186-190 | After an accepted comment on a post, the admin's delete of that post gives a 500, and the post stays |
| BlogProperties.EmailsStayUniqueOnInsert | main.py:69 | Adding a user whose email is not taken keeps emails unique |
| BlogProperties.TitlesStayUniqueOnInsert | main.py:78 | Adding a post whose title is not taken keeps titles unique |
| BlogProperties.TitlesStayUniqueOnUpdate | main.py:78 | Changing one post to a title no other post has keeps titles unique |
| BlogProperties.InitIsWf | main.py:100-101 | The empty database with nobody logged in satisfies the invariant |
| BlogProperties.RegisterPreservesWf | main.py:115-140 | Registration keeps the invariant: positive ids, unique emails and titles, stored authors and commenters, comments on stored posts, and a session whose flag matches its principal |
| BlogProperties.LoginPreservesWf | main.py:144-162 | Login keeps the invariant |
| BlogProperties.LogoutPreservesWf | main.py:165-169 | Logout keeps the invariant |
| BlogProperties.ShowPostPreservesWf | main.py:176-198 | Commenting keeps the invariant |
| BlogProperties.AddNewPostPreservesWf | main.py:202-218 | Creating a post keeps the invariant, title uniqueness included |
| BlogProperties.EditPostPreservesWf | main.py:222-241 | Editing a post keeps the invariant, title uniqueness included |
| BlogProperties.DeletePostPreservesWf | main.py:245-251 | Deleting a post keeps the invariant, so no comment is left pointing at a deleted post |
| BlogProperties.StepPreservesWf | main.py:106-251 | Every modelled request keeps the invariant |
| BlogProperties.RunPreservesWf | main.py:106-251 | Any sequence of requests keeps the invariant |
| BlogProperties.ReachableIsWf | main.py:100-101 | Every state reachable from the empty database satisfies the invariant |
| BlogProperties.StepKeepsRowsPassedForms | forms.py:8-32 | Every stored user, post and comment holds values its form accepted, and every request keeps this true |
| BlogProperties.RegisterKeepsRowsPassedForms | main.py:118-133 | A registered user's name and email passed the register form |
| BlogProperties.ShowPostKeepsRowsPassedForms | main.py:181-190 | A stored comment's text passed the comment form |
| BlogProperties.AddNewPostKeepsRowsPassedForms | main.py:206-214 | A created post's fields passed the post form, the URL check included |
| BlogProperties.EditPostKeepsRowsPassedForms | main.py:233-238 | An edited post's fields passed the post form |

## Left out

- Flask plumbing is left out: routing, templates, flashed messages and
  `url_for`. They are reduced to the `Outcome` and `Page` datatypes, and a
  flash notice leaves no trace in the model.
- The context processor that passes `logged_in` to templates is left out. It
  only reads the flag, and the model keeps the flag itself.
- SQLAlchemy sessions, commits, rollbacks and `create_all` are left out. A
  failed commit is modelled as a `Fault` with the state unchanged.
- Relationship loading is left out, except `CommentsOf`, which gives a post's
  comment list.
- The ORM's nulling of a deleted post's comments is not modelled step by
  step. Only its result is modelled: the failed commit, as a `Fault`.
- Store.FreshId: SQLite's max + 1 rule stops at 2^63 - 1. Past that, SQLite
  picks an unused id at random. `FreshId` keeps counting, because no table of
  the blog comes near that size.
- The database engine is assumed to be SQLite. The code takes the engine from
  the `DATABASE_URI` setting. Under another engine, ids come from a sequence
  and are never reused. An over-long value for a `String(n)` column would
  also break the commit and give a 500.
- The state holds one visitor's session. The application keeps one session
  per browser, so several visitors can be logged in at once, each as their
  own account. `Run` serves a single visitor, and the interleavings of
  several visitors' requests are not modelled.
- Requests are served one at a time. The development server runs requests on
  threads, so two registrations with the same email can both pass the email
  lookup. The second commit then breaks the unique `email` column and gives
  a 500. `Register` never returns that 500, because the model serves
  requests one by one.
- The `print` of the loaded posts in `get_all_posts` is left out. It writes to
  the console only.
- Werkzeug's PBKDF2 and its random salt are left out. The derivation function
  and the salt are parameters, and nothing is assumed about collisions.
- Werkzeug's `method$salt$digest` string encoding is left out. The stored
  password is a `Credential` record. Its `scheme` is the requested method.
  The stored text also carries Werkzeug's default iteration count, and that
  count is not modelled.
- The WTForms `URL()` validator is the parameter `isUrl`.
- The CSRF token check inside `validate_on_submit()` is left out.
- A POST that omits a field is left out. WTForms would then fall back to the
  prefilled or empty value. The model assumes every form field is present.
- The `String(100)` and `String(250)` column lengths are left out. SQLite,
  the assumed engine, does not enforce them.
- The date is left out. `date.today().strftime(...)` becomes the `today`
  string parameter.
- `load_user` and its `get_or_404` are left out. The principal is an id, and
  the invariant keeps it pointing at a stored user.
- The misplaced `@login_required` on `show_post` is left out. It is applied
  above `@app.route`, so it never guards the registered view. Only the inner
  authentication check is modelled.
- The contact and about routes are left out: SMTP I/O, environment settings
  and the process-global message dictionary.
- Python whitespace: `IsWhitespace` lists the characters for which
  `str.isspace()` is true. Nothing else about Unicode is modelled.
- Post listing order: the source promises none. `GetAllPosts` lists posts in
  ascending id order, which is the scan order of SQLite, the assumed engine.
