/**
 The blog's persistent state: three tables (users, blog posts, comments),
 each a map from integer primary key to row, plus the session of the
 current visitor. Ids are allocated the way an integer primary key without
 AUTOINCREMENT is in SQLite: one more than the largest id in the table,
 and 1 for an empty table.
 */
module Store {
  import opened Passwords

  type Id = nat

  datatype Option<T> = None | Some(value: T)

  /** The distinguished user id that the admin guard accepts. */
  const AdminId: Id := 1

  /** The largest value of SQLite's signed 64-bit INTEGER. A larger id in a
      URL cannot even be bound as a query parameter: the driver raises an
      overflow error, and the request ends in a 500. */
  const MaxRowId: Id := 0x7FFF_FFFF_FFFF_FFFF

  datatype User = User(name: string, email: string, password: Credential)

  datatype BlogPost = BlogPost(
    title: string,
    subtitle: string,
    date: string,
    body: string,
    imgUrl: string,
    author: Id)

  datatype Comment = Comment(content: string, post: Id, commenter: Id)

  /** One visitor's session: the authenticated principal (the login
      manager's current user), and the separate `logged_in` flag kept in the
      session for the templates. */
  datatype Session = Session(principal: Option<Id>, loggedIn: bool)

  datatype State = State(
    users: map<Id, User>,
    posts: map<Id, BlogPost>,
    comments: map<Id, Comment>,
    session: Session)

  /** An empty database and a visitor nobody has logged in as. */
  function Init(): State
  {
    State(map[], map[], map[], Session(None, false))
  }

  // ---------------------------------------------------------------- ids

  /** `m` is the largest element of `s`. */
  predicate IsMaxOf(m: Id, s: set<Id>)
  {
    m in s && forall k :: k in s ==> k <= m
  }

  /** `m` is the smallest element of `s`. */
  predicate IsMinOf(m: Id, s: set<Id>)
  {
    m in s && forall k :: k in s ==> m <= k
  }

  lemma {:induction false} HasMax(s: set<Id>)
    requires s != {}
    ensures exists m :: IsMaxOf(m, s)
  {
    var x :| x in s;
    var rest := s - {x};
    if rest == {} {
      forall k | k in s ensures k <= x {
        assert k !in rest;
      }
      assert IsMaxOf(x, s);
    } else {
      HasMax(rest);
      var m :| IsMaxOf(m, rest);
      var top := if x <= m then m else x;
      forall k | k in s ensures k <= top {
        if k != x {
          assert k in rest;
        }
      }
      assert IsMaxOf(top, s);
    }
  }

  lemma {:induction false} HasMin(s: set<Id>)
    requires s != {}
    ensures exists m :: IsMinOf(m, s)
  {
    var x :| x in s;
    var rest := s - {x};
    if rest == {} {
      forall k | k in s ensures x <= k {
        assert k !in rest;
      }
      assert IsMinOf(x, s);
    } else {
      HasMin(rest);
      var m :| IsMinOf(m, rest);
      var bottom := if m <= x then m else x;
      forall k | k in s ensures bottom <= k {
        if k != x {
          assert k in rest;
        }
      }
      assert IsMinOf(bottom, s);
    }
  }

  /** The largest id of a table, 0 when the table is empty. */
  function MaxId(s: set<Id>): (m: Id)
    ensures forall k :: k in s ==> k <= m
    ensures s != {} ==> m in s
    ensures s == {} ==> m == 0
  {
    if s == {} then 0
    else
      HasMax(s);
      var m: Id :| IsMaxOf(m, s);
      m
  }

  /** The smallest id of a non-empty set of ids. */
  function MinId(s: set<Id>): (m: Id)
    requires s != {}
    ensures m in s
    ensures forall k :: k in s ==> m <= k
  {
    HasMin(s);
    var m: Id :| IsMinOf(m, s);
    m
  }

  /** The id the database assigns to the next row of a table. */
  function FreshId(s: set<Id>): (r: Id)
    ensures r !in s
    ensures 1 <= r
    ensures forall k :: k in s ==> k < r
    ensures s == {} ==> r == 1
  {
    MaxId(s) + 1
  }

  /** `after` is `before` with exactly one more row, `row` under the new key `id`. */
  ghost predicate AddsRow<R>(before: map<Id, R>, after: map<Id, R>, id: Id, row: R)
  {
    && id !in before
    && after.Keys == before.Keys + {id}
    && after[id] == row
    && forall k :: k in before ==> after[k] == before[k]
  }

  /** Adds a row under a freshly allocated id; returns the id and the table. */
  function Insert<R>(table: map<Id, R>, row: R): (r: (Id, map<Id, R>))
    ensures AddsRow(table, r.1, r.0, row)
    ensures 1 <= r.0
    ensures table == map[] ==> r.0 == 1
    ensures |r.1| == |table| + 1
  {
    var id := FreshId(table.Keys);
    (id, table[id := row])
  }

  // ------------------------------------------------------------ lookups

  predicate EmailTaken(users: map<Id, User>, email: string)
  {
    exists k :: k in users && users[k].email == email
  }

  predicate TitleTaken(posts: map<Id, BlogPost>, title: string)
  {
    exists k :: k in posts && posts[k].title == title
  }

  /** Selects the user row whose email equals `email`, taking the first (lowest
      id) row when several match. With unique emails it is THE user. */
  function FindByEmail(users: map<Id, User>, email: string): (r: Option<Id>)
    ensures r.None? <==> !EmailTaken(users, email)
    ensures r.Some? ==> r.value in users && users[r.value].email == email
    ensures UniqueEmails(users) ==>
              forall k :: k in users && users[k].email == email ==> r == Some(k)
  {
    var matches := set k | k in users && users[k].email == email;
    assert forall k :: k in users && users[k].email == email ==> k in matches;
    if matches == {} then None
    else
      var k := MinId(matches);
      assert k in users;
      Some(k)
  }

  /** The comments attached to one post, as loaded by the post's relationship. */
  function CommentsOf(comments: map<Id, Comment>, post: Id): (r: map<Id, Comment>)
    ensures forall c :: c in r <==> c in comments && comments[c].post == post
    ensures forall c :: c in r ==> r[c] == comments[c]
  {
    map c | c in comments && comments[c].post == post :: comments[c]
  }

  /** All posts of the table as (id, post) pairs, ascending by id, which is the
      order in which SQLite scans a rowid table. */
  function PostsInIdOrder(posts: map<Id, BlogPost>): (r: seq<(Id, BlogPost)>)
    ensures |r| == |posts|
    ensures forall i :: 0 <= i < |r| ==> r[i].0 in posts && posts[r[i].0] == r[i].1
    ensures forall i, j :: 0 <= i < j < |r| ==> r[i].0 < r[j].0
    decreases |posts|
  {
    if posts == map[] then []
    else
      var k := MinId(posts.Keys);
      var rest := posts - {k};
      assert rest.Keys == posts.Keys - {k};
      var tail := PostsInIdOrder(rest);
      [(k, posts[k])] + tail
  }

  /** The listing leaves no post out. */
  lemma {:induction false} PostsInIdOrderComplete(posts: map<Id, BlogPost>, k: Id)
    requires k in posts
    ensures exists i :: 0 <= i < |PostsInIdOrder(posts)| && PostsInIdOrder(posts)[i].0 == k
    decreases |posts|
  {
    var m := MinId(posts.Keys);
    var rest := posts - {m};
    assert rest.Keys == posts.Keys - {m};
    var r := PostsInIdOrder(posts);
    assert r == [(m, posts[m])] + PostsInIdOrder(rest);
    if k == m {
      assert r[0].0 == k;
    } else {
      PostsInIdOrderComplete(rest, k);
      var i :| 0 <= i < |PostsInIdOrder(rest)| && PostsInIdOrder(rest)[i].0 == k;
      assert r[i + 1].0 == k;
    }
  }

  // ---------------------------------------------------------- invariant

  predicate UniqueEmails(users: map<Id, User>)
  {
    forall a, b :: a in users && b in users && a != b ==> users[a].email != users[b].email
  }

  predicate UniqueTitles(posts: map<Id, BlogPost>)
  {
    forall a, b :: a in posts && b in posts && a != b ==> posts[a].title != posts[b].title
  }

  /** The principal, when there is one, is a stored user, and the `logged_in`
      flag agrees with whether there is a principal. */
  predicate SessionWf(session: Session, users: map<Id, User>)
  {
    && (session.principal.Some? ==> session.principal.value in users)
    && (session.loggedIn <==> session.principal.Some?)
  }

  /** What the schema and the handlers together keep true of every state:
      positive ids, the two unique columns, authors and commenters that are
      stored users, comments on stored posts, and a consistent session. */
  predicate Wf(st: State)
  {
    && (forall k :: k in st.users ==> 1 <= k)
    && (forall k :: k in st.posts ==> 1 <= k)
    && (forall k :: k in st.comments ==> 1 <= k)
    && UniqueEmails(st.users)
    && UniqueTitles(st.posts)
    && (forall p :: p in st.posts ==> st.posts[p].author in st.users)
    && (forall c :: c in st.comments ==> st.comments[c].commenter in st.users)
    && (forall c :: c in st.comments ==> st.comments[c].post in st.posts)
    && SessionWf(st.session, st.users)
  }
}
