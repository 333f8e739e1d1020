/**
 The four input forms of the blog and the validators attached to their
 fields. A form is valid when every validator of every field accepts:
 - DataRequired: the field is non-empty and not only whitespace, i.e. what
   is left after Python's `str.strip()` is non-empty;
 - Length(min = n): the raw field has at least n characters;
 - URL: a well-formedness check on the image link, kept abstract here as a
   parameter `isUrl`.
 */
module Forms {

  /** Python's `str.isspace()` characters, which `str.strip()` removes. */
  predicate IsWhitespace(c: char)
  {
    var n := c as int;
    || 0x09 <= n <= 0x0D
    || 0x1C <= n <= 0x20
    || n == 0x85
    || n == 0xA0
    || n == 0x1680
    || 0x2000 <= n <= 0x200A
    || n == 0x2028
    || n == 0x2029
    || n == 0x202F
    || n == 0x205F
    || n == 0x3000
  }

  /** Drops leading whitespace. */
  function StripStart(s: string): (r: string)
    ensures |r| <= |s| && r == s[|s| - |r|..]
    ensures forall j :: 0 <= j < |s| - |r| ==> IsWhitespace(s[j])
    ensures |r| > 0 ==> !IsWhitespace(r[0])
    decreases |s|
  {
    if |s| > 0 && IsWhitespace(s[0]) then StripStart(s[1..]) else s
  }

  /** Drops trailing whitespace. */
  function StripEnd(s: string): (r: string)
    ensures |r| <= |s| && r == s[..|r|]
    ensures forall j :: |r| <= j < |s| ==> IsWhitespace(s[j])
    ensures |r| > 0 ==> !IsWhitespace(r[|r| - 1])
    decreases |s|
  {
    if |s| > 0 && IsWhitespace(s[|s| - 1]) then StripEnd(s[..|s| - 1]) else s
  }

  /** Every character of `s` from index `lo` up to (not including) `hi` is
      whitespace. */
  predicate WhitespaceBetween(s: string, lo: nat, hi: nat)
    requires lo <= hi <= |s|
  {
    forall j :: lo <= j < hi ==> IsWhitespace(s[j])
  }

  /** Python's `str.strip()` with no argument: the result is the middle of
      `s` once a whitespace prefix and a whitespace suffix are cut off, it
      starts and ends with visible characters, and it is empty exactly when
      `s` is all whitespace. */
  function Strip(s: string): (r: string)
    ensures |r| <= |s|
    ensures exists i :: 0 <= i <= |s| - |r| && r == s[i..i + |r|]
                        && WhitespaceBetween(s, 0, i) && WhitespaceBetween(s, i + |r|, |s|)
    ensures |r| > 0 ==> !IsWhitespace(r[0]) && !IsWhitespace(r[|r| - 1])
    ensures |r| == 0 <==> WhitespaceBetween(s, 0, |s|)
  {
    var t := StripStart(s);
    var u := StripEnd(t);
    CutsWhitespace(s, t, u);
    u
  }

  /** Cutting a whitespace prefix off `s` (leaving `t`, which starts with a
      visible character) and then a whitespace suffix off `t` (leaving `u`)
      leaves a middle slice of `s` framed by whitespace, and nothing only
      when `s` is all whitespace. */
  lemma CutsWhitespace(s: string, t: string, u: string)
    requires |t| <= |s| && t == s[|s| - |t|..]
    requires forall j :: 0 <= j < |s| - |t| ==> IsWhitespace(s[j])
    requires |t| > 0 ==> !IsWhitespace(t[0])
    requires |u| <= |t| && u == t[..|u|]
    requires forall j :: |u| <= j < |t| ==> IsWhitespace(t[j])
    ensures var i := |s| - |t|;
            && u == s[i..i + |u|]
            && WhitespaceBetween(s, 0, i)
            && WhitespaceBetween(s, i + |u|, |s|)
            && (|u| > 0 ==> !IsWhitespace(u[0]))
            && (|u| == 0 <==> WhitespaceBetween(s, 0, |s|))
  {
    var i := |s| - |t|;
    forall j | i + |u| <= j < |s|
      ensures IsWhitespace(s[j])
    {
      assert t[j - i] == s[j];
    }
    if |t| > 0 {
      assert t[0] == s[i];
      if |u| > 0 {
        assert u[0] == t[0];
      }
    }
  }

  /** The DataRequired validator on a text field: the field holds some
      character that is not whitespace. */
  predicate DataRequired(s: string)
    decreases |s|
  {
    |s| > 0 && (!IsWhitespace(s[0]) || DataRequired(s[1..]))
  }

  /** DataRequired holds exactly when some character is not whitespace. */
  lemma {:induction false} DataRequiredIffVisible(s: string)
    ensures DataRequired(s) <==> exists i :: 0 <= i < |s| && !IsWhitespace(s[i])
    decreases |s|
  {
    if |s| > 0 {
      DataRequiredIffVisible(s[1..]);
      if exists i :: 0 <= i < |s| && !IsWhitespace(s[i]) {
        var i :| 0 <= i < |s| && !IsWhitespace(s[i]);
        if i > 0 {
          assert s[1..][i - 1] == s[i];
        }
      }
      if DataRequired(s[1..]) {
        var j :| 0 <= j < |s[1..]| && !IsWhitespace(s[1..][j]);
        assert s[j + 1] == s[1..][j];
      }
    }
  }

  /** DataRequired is the validator's own test, "`data` is non-empty and
      `data.strip()` is non-empty". */
  lemma DataRequiredIsStripTest(s: string)
    ensures DataRequired(s) <==> |s| > 0 && |Strip(s)| > 0
  {
    DataRequiredIffVisible(s);
    var t := StripStart(s);
    if DataRequired(s) {
      var i :| 0 <= i < |s| && !IsWhitespace(s[i]);
      assert |t| > 0 && !IsWhitespace(t[0]);
      assert |StripEnd(t)| > 0;
    }
    if |s| > 0 && |Strip(s)| > 0 {
      var u := StripEnd(t);
      assert u[0] == t[0] == s[|s| - |t|];
    }
  }

  /** The Length validator with only a minimum. */
  predicate LengthAtLeast(s: string, min: nat)
  {
    |s| >= min
  }

  /** Minimum password length the login form enforces. */
  const MinLoginPassword: nat := 10

  datatype PostForm = PostForm(title: string, subtitle: string, imgUrl: string, body: string)

  datatype RegisterForm = RegisterForm(name: string, email: string, password: string)

  datatype LoginForm = LoginForm(email: string, password: string)

  datatype CommentForm = CommentForm(comment: string)

  /** CreatePostForm: all four fields required; the image link must also be a URL. */
  predicate ValidPost(isUrl: string -> bool, f: PostForm)
  {
    && DataRequired(f.title)
    && DataRequired(f.subtitle)
    && DataRequired(f.imgUrl) && isUrl(f.imgUrl)
    && DataRequired(f.body)
  }

  /** RegisterForm: name, email and password required; no length rule. */
  predicate ValidRegister(f: RegisterForm)
  {
    DataRequired(f.name) && DataRequired(f.email) && DataRequired(f.password)
  }

  /** LoginForm: email required; password required and at least ten characters. */
  predicate ValidLogin(f: LoginForm)
  {
    && DataRequired(f.email)
    && DataRequired(f.password) && LengthAtLeast(f.password, MinLoginPassword)
  }

  /** CommentForm: the comment text is required. */
  predicate ValidComment(f: CommentForm)
  {
    DataRequired(f.comment)
  }

  /** The registration form accepts passwords the login form refuses: every
      visible password shorter than ten characters. */
  lemma ShortPasswordRegistersButCannotLogIn(name: string, email: string, password: string)
    requires DataRequired(name) && DataRequired(email) && DataRequired(password)
    requires |password| < MinLoginPassword
    ensures ValidRegister(RegisterForm(name, email, password))
    ensures !ValidLogin(LoginForm(email, password))
  {
  }

  /** Such a password exists. */
  lemma SomeRegisteredPasswordCannotLogIn()
    ensures exists f: RegisterForm ::
              ValidRegister(f) && !ValidLogin(LoginForm(f.email, f.password))
  {
    var f := RegisterForm(['A'], ['a'], ['s']);
    assert DataRequired(f.name) && DataRequired(f.email) && DataRequired(f.password);
    assert ValidRegister(f) && !ValidLogin(LoginForm(f.email, f.password));
  }
}
