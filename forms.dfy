/**
 * blog/forms.py: the tag string of PostForm and its clear-then-add
 * reconciliation, and SignUpForm's validation and role assignment.
 */
module Forms {
  import opened Wrappers
  import opened Text
  import opened Models

  function Elems(names: seq<TagName>): set<TagName> {
    set n | n in names
  }

  // ----- the tag string -----

  /** `[t.strip() for t in tokens if t.strip()]`. */
  function StrippedTokens(tokens: seq<string>): (r: seq<TagName>)
    ensures forall i :: 0 <= i < |r| ==> r[i] != [] && IsStripped(r[i])
  {
    if tokens == [] then []
    else
      var t := Strip(tokens[0]);
      (if t != [] then [t] else []) + StrippedTokens(tokens[1..])
  }

  /** A name is kept exactly when it is non-empty and some token strips to it. */
  lemma {:induction false} StrippedMembers(tokens: seq<string>, n: TagName)
    ensures n in StrippedTokens(tokens) <==> n != [] && exists t :: t in tokens && Strip(t) == n
  {
    if tokens != [] {
      StrippedMembers(tokens[1..], n);
      assert forall x :: x in tokens <==> x == tokens[0] || x in tokens[1..];
    }
  }

  /** The tag names PostForm.save reads from `cleaned_data.get('tags', '')`. */
  function TagNames(field: Option<string>): (r: seq<TagName>)
    ensures field.GetOr("") == "" ==> r == []
  {
    var tokens := Split(field.GetOr(""), ',');
    assert field.GetOr("") == "" ==>
      tokens == [[]] && Strip(tokens[0]) == [] && StrippedTokens(tokens[1..]) == [];
    StrippedTokens(tokens)
  }

  /** Every parsed name is non-empty, its own stripped form and free of commas. */
  lemma TagNamesWellFormed(field: Option<string>, n: TagName)
    requires n in TagNames(field)
    ensures n != [] && Strip(n) == n && ',' !in n
  {
    var tokens := Split(field.GetOr(""), ',');
    SplitPieces(field.GetOr(""), ',');
    var i :| 0 <= i < |TagNames(field)| && TagNames(field)[i] == n;
    StripFixed(n);
    StrippedMembers(tokens, n);
    var t :| t in tokens && Strip(t) == n;
    StripSlice(t);
    var k :| OccursAt(t, n, k);
    SliceLacks(t, n, k, ',');
  }

  lemma SliceLacks(t: string, n: string, k: int, c: char)
    requires OccursAt(t, n, k) && c !in t
    ensures c !in n
  {
    assert forall j :: 0 <= j < |n| ==> n[j] == t[k + j];
  }

  /** A tag name is parsed exactly when some comma-separated token strips to it. */
  lemma TagNamesMembers(field: Option<string>, n: TagName)
    ensures n in TagNames(field) <==>
      n != [] && exists t :: t in Split(field.GetOr(""), ',') && Strip(t) == n
  {
    StrippedMembers(Split(field.GetOr(""), ','), n);
  }

  /** An absent or empty tag string, or one of only commas and blanks, yields no tags. */
  lemma {:induction false} TagNamesBlank(field: Option<string>)
    requires forall i :: 0 <= i < |field.GetOr("")| ==> field.GetOr("")[i] == ',' || IsSpace(field.GetOr("")[i])
    ensures TagNames(field) == []
  {
    var tokens := Split(field.GetOr(""), ',');
    BlankTokens(field.GetOr(""));
    NoNamesFromBlanks(tokens);
  }

  lemma {:induction false} BlankTokens(s: string)
    requires forall i :: 0 <= i < |s| ==> s[i] == ',' || IsSpace(s[i])
    ensures forall t :: t in Split(s, ',') ==> forall i :: 0 <= i < |t| ==> IsSpace(t[i])
  {
    if s != [] {
      BlankTokens(s[1..]);
    }
  }

  lemma {:induction false} NoNamesFromBlanks(tokens: seq<string>)
    requires forall t :: t in tokens ==> forall i :: 0 <= i < |t| ==> IsSpace(t[i])
    ensures StrippedTokens(tokens) == []
  {
    if tokens != [] {
      StripAllSpace(tokens[0]);
      NoNamesFromBlanks(tokens[1..]);
    }
  }

  /** Parsing a comma-joined list of well-formed names gives the list back. */
  lemma TagNamesJoin(names: seq<TagName>)
    requires forall i :: 0 <= i < |names| ==> names[i] != [] && IsStripped(names[i]) && ',' !in names[i]
    ensures TagNames(Some(Join(names, ','))) == names
  {
    if names != [] {
      SplitJoin(names, ',');
      StrippedFixed(names);
    }
  }

  lemma {:induction false} StrippedFixed(names: seq<TagName>)
    requires forall i :: 0 <= i < |names| ==> names[i] != [] && IsStripped(names[i])
    ensures StrippedTokens(names) == names
  {
    if names != [] {
      StripFixed(names[0]);
      StrippedFixed(names[1..]);
      assert [names[0]] + names[1..] == names;
    }
  }

  // ----- PostForm.save -----

  /** `if author: post.author = author`. */
  function WithAuthor(p: Post, author: Option<UserId>): Post {
    if author.Some? then p.(author := author.value) else p
  }

  datatype FormSave = Unsaved(post: Post) | Saved(id: PostId, post: Post) | SaveFailed(error: StoreError)

  /**
   * PostForm.save(commit, author): apply the author; with commit, save the
   * post (slug assignment included), then clear its tags and find-or-create
   * and attach each parsed name in turn.
   */
  method SavePostForm(s: Store, pk: Option<PostId>, instance: Post, tagsField: Option<string>,
                      commit: bool, author: Option<UserId>)
    returns (r: FormSave)
    requires s.Valid()
    modifies s`posts, s`nextPostId, s`tags
    ensures s.Valid()
    ensures !commit ==> r == Unsaved(WithAuthor(instance, author))
    ensures commit ==> !r.Unsaved?
    ensures !r.Saved? ==> s.posts == old(s.posts) && s.tags == old(s.tags) && s.nextPostId == old(s.nextPostId)
    ensures commit ==> (r.SaveFailed? <==> instance.slug != "" && SlugHeldByOther(old(s.posts), instance.slug, pk))
    ensures r.Saved? ==> commit && r.id in s.posts && r.post == s.posts[r.id]
    ensures r.Saved? && pk.Some? ==> r.id == pk.value
    ensures r.Saved? && pk.None? ==> r.id !in old(s.posts)
    ensures r.Saved? ==> r.post == WithAuthor(instance, author).(slug := r.post.slug, tags := Elems(TagNames(tagsField)))
    ensures r.Saved? ==> s.tags == old(s.tags) + Elems(TagNames(tagsField))
    ensures r.Saved? ==> s.posts == old(s.posts)[r.id := r.post]
    ensures r.Saved? && instance.slug != "" ==> r.post.slug == instance.slug
    ensures r.Saved? && instance.slug == "" ==> r.post.slug !in Slugs(old(s.posts))
    ensures r.Saved? && instance.slug == "" ==> AssignedSlug(BaseSlug(instance.title), Slugs(old(s.posts)), r.post.slug)
  {
    var post := WithAuthor(instance, author);
    if !commit {
      return Unsaved(post);
    }
    var saved := s.SavePost(pk, post);
    if saved.Failure? {
      return SaveFailed(saved.error);
    }
    var id := saved.value;
    ReplaceTags(s, id, TagNames(tagsField));
    return Saved(id, s.posts[id]);
  }

  /**
   * `post.tags.clear()`, then for each name `Tag.objects.get_or_create` and
   * `post.tags.add`.
   */
  method ReplaceTags(s: Store, id: PostId, names: seq<TagName>)
    requires s.Valid() && id in s.posts
    modifies s`posts, s`tags
    ensures s.Valid()
    ensures s.posts == old(s.posts)[id := old(s.posts)[id].(tags := Elems(names))]
    ensures s.tags == old(s.tags) + Elems(names)
  {
    s.ClearTags(id);
    assert Elems(names[..0]) == {};
    var i := 0;
    while i < |names|
      invariant 0 <= i <= |names|
      invariant s.Valid() && id in s.posts
      invariant s.posts == old(s.posts)[id := old(s.posts)[id].(tags := Elems(names[..i]))]
      invariant s.tags == old(s.tags) + Elems(names[..i])
    {
      AttachTag(s, id, names[i]);
      ElemsStep(names, i);
      i := i + 1;
    }
    assert names[..i] == names;
  }

  lemma ElemsStep(names: seq<TagName>, i: nat)
    requires i < |names|
    ensures Elems(names[..i + 1]) == Elems(names[..i]) + {names[i]}
  {
    assert names[..i + 1] == names[..i] + [names[i]];
  }

  /** `tag, _ = Tag.objects.get_or_create(name=name); post.tags.add(tag)`. */
  method AttachTag(s: Store, id: PostId, name: TagName)
    requires s.Valid() && id in s.posts
    modifies s`posts, s`tags
    ensures s.Valid()
    ensures s.posts == old(s.posts)[id := old(s.posts)[id].(tags := old(s.posts)[id].tags + {name})]
    ensures s.tags == old(s.tags) + {name}
  {
    var _ := s.GetOrCreateTag(name);
    s.AddTag(id, name);
  }

  // ----- SignUpForm -----

  /** The role a sign-up may choose: the keys of SignUpForm.ROLE_CHOICES. */
  function RoleValue(role: Role): string {
    match role
    case Author => "author"
    case Reader => "reader"
    case Admin => "admin"
  }

  /** `ChoiceField(choices=ROLE_CHOICES)`: only 'author' and 'reader' are accepted. */
  function RoleChoice(value: string): (r: Option<Role>)
    ensures r.Some? ==> r.value != Admin && RoleValue(r.value) == value
    ensures r.None? <==> value != RoleValue(Author) && value != RoleValue(Reader)
  {
    if value == "author" then Some(Author)
    else if value == "reader" then Some(Reader)
    else None
  }

  /** `forms.CharField()` (required, strip=True): the cleaned value, or None when blank. */
  function CleanCharField(raw: string): (r: Option<string>)
    ensures r.Some? ==> r.value != [] && IsStripped(r.value)
    ensures r.None? <==> Strip(raw) == []
  {
    var v := Strip(raw);
    if v == [] then None else Some(v)
  }

  /** SignUpForm.clean: the passwords must match. */
  function CleanPasswords(password: Option<string>, passwordConfirm: Option<string>): (ok: bool)
  {
    password == passwordConfirm
  }

  datatype SignUpData = SignUpData(
    username: string, email: string, password: string, passwordConfirm: string, role: string)

  datatype SignUpError =
    | UsernameRequired | UsernameTaken | PasswordRequired | ConfirmRequired
    | InvalidRole | PasswordsDoNotMatch

  predicate UsernameTakenIn(users: map<UserId, User>, name: string) {
    exists u :: u in users && users[u].username == name
  }

  /** Every error the form can report. */
  const AllSignUpErrors: set<SignUpError> :=
    {UsernameRequired, UsernameTaken, PasswordRequired, ConfirmRequired, InvalidRole, PasswordsDoNotMatch}

  /** Whether `form.is_valid()` reports error `e`: field by field, then clean(). */
  predicate Reported(users: map<UserId, User>, d: SignUpData, e: SignUpError) {
    var name := CleanCharField(d.username);
    match e
    case UsernameRequired => name.None?
    case UsernameTaken => name.Some? && UsernameTakenIn(users, name.value)
    case PasswordRequired => CleanCharField(d.password).None?
    case ConfirmRequired => CleanCharField(d.passwordConfirm).None?
    case InvalidRole => RoleChoice(d.role).None?
    case PasswordsDoNotMatch => !CleanPasswords(CleanCharField(d.password), CleanCharField(d.passwordConfirm))
  }

  /** The errors `form.is_valid()` reports. */
  function SignUpErrors(users: map<UserId, User>, d: SignUpData): (r: set<SignUpError>)
    ensures UsernameRequired in r <==> Strip(d.username) == []
    ensures UsernameTaken in r <==> Strip(d.username) != [] && UsernameTakenIn(users, Strip(d.username))
    ensures PasswordRequired in r <==> Strip(d.password) == []
    ensures ConfirmRequired in r <==> Strip(d.passwordConfirm) == []
    ensures InvalidRole in r <==> d.role != "author" && d.role != "reader"
  {
    set e | e in AllSignUpErrors && Reported(users, d, e)
  }

  /** The form is valid: every field cleans and clean() passes. */
  predicate SignUpValid(users: map<UserId, User>, d: SignUpData) {
    && CleanCharField(d.username).Some?
    && !UsernameTakenIn(users, CleanCharField(d.username).value)
    && CleanCharField(d.password).Some?
    && CleanCharField(d.passwordConfirm).Some?
    && RoleChoice(d.role).Some?
    && CleanPasswords(CleanCharField(d.password), CleanCharField(d.passwordConfirm))
  }

  /** No error is reported exactly when the form is valid. */
  lemma NoErrorsIffValid(users: map<UserId, User>, d: SignUpData)
    ensures SignUpErrors(users, d) == {} <==> SignUpValid(users, d)
  {
    if !SignUpValid(users, d) {
      var name := CleanCharField(d.username);
      if name.None? {
        assert UsernameRequired in SignUpErrors(users, d);
      } else if UsernameTakenIn(users, name.value) {
        assert UsernameTaken in SignUpErrors(users, d);
      } else if CleanCharField(d.password).None? {
        assert PasswordRequired in SignUpErrors(users, d);
      } else if CleanCharField(d.passwordConfirm).None? {
        assert ConfirmRequired in SignUpErrors(users, d);
      } else if RoleChoice(d.role).None? {
        assert InvalidRole in SignUpErrors(users, d);
      } else {
        assert PasswordsDoNotMatch in SignUpErrors(users, d);
      }
    }
  }

  /**
   * With every field individually valid, the form is valid exactly when the
   * two passwords match.
   */
  lemma SignUpValidIffPasswordsMatch(users: map<UserId, User>, d: SignUpData)
    requires CleanCharField(d.username).Some? && !UsernameTakenIn(users, CleanCharField(d.username).value)
    requires CleanCharField(d.password).Some? && CleanCharField(d.passwordConfirm).Some?
    requires RoleChoice(d.role).Some?
    ensures SignUpErrors(users, d) == {} <==> Strip(d.password) == Strip(d.passwordConfirm)
  {
    if Strip(d.password) != Strip(d.passwordConfirm) {
      assert PasswordsDoNotMatch in SignUpErrors(users, d);
    }
  }

  /**
   * The password fields strip their input, so the mismatch is judged on the
   * stripped values: it is reported exactly when those differ.
   */
  lemma MismatchReported(users: map<UserId, User>, d: SignUpData)
    ensures PasswordsDoNotMatch in SignUpErrors(users, d) <==> Strip(d.password) != Strip(d.passwordConfirm)
  {
  }

  /**
   * Whitespace around the passwords is stripped before they are compared, so
   * two entries that differ only by surrounding whitespace match.
   */
  lemma PaddedPasswordAccepted(users: map<UserId, User>, name: string, email: string, role: string,
                               core: string, a: string, b: string, c: string, e: string)
    requires IsStripped(core) && AllSpace(a) && AllSpace(b) && AllSpace(c) && AllSpace(e)
    ensures PasswordsDoNotMatch !in SignUpErrors(users, SignUpData(name, email, a + core + b, c + core + e, role))
  {
    StripPadded(a, core, b);
    StripPadded(c, core, e);
    MismatchReported(users, SignUpData(name, email, a + core + b, c + core + e, role));
  }

  // ----- the stored user -----

  /**
   * BaseUserManager.normalize_email, run by User.clean during validation:
   * split at the last '@' and lower-case the domain part; a string without
   * '@' is kept as it is.
   */
  function NormalizeEmail(email: string): (r: string)
    ensures |r| == |email|
    ensures LastIndex(email, '@') < 0 ==> r == email
    ensures LastIndex(email, '@') >= 0 ==>
      var k := LastIndex(email, '@');
      r[..k + 1] == email[..k + 1] && r[k + 1..] == Lower(email[k + 1..])
  {
    var k := LastIndex(email, '@');
    if k < 0 then email else email[..k] + "@" + Lower(email[k + 1..])
  }

  /** The '@' that splits the address is the same one after normalising. */
  lemma NormalizeEmailKeepsSplit(email: string)
    ensures LastIndex(NormalizeEmail(email), '@') == LastIndex(email, '@')
  {
    var k := LastIndex(email, '@');
    var r := NormalizeEmail(email);
    if k >= 0 {
      assert r[k] == r[..k + 1][k] == '@';
      forall i | k < i < |r|
        ensures r[i] != '@'
      {
        assert r[i] == r[k + 1..][i - k - 1] == ToLower(email[i]);
      }
    }
  }

  /** Normalising an address that is already normalised changes nothing. */
  lemma NormalizeEmailIdempotent(email: string)
    ensures NormalizeEmail(NormalizeEmail(email)) == NormalizeEmail(email)
  {
    var k := LastIndex(email, '@');
    var r := NormalizeEmail(email);
    NormalizeEmailKeepsSplit(email);
    if k >= 0 {
      LowerIdempotent(email[k + 1..]);
      assert r == r[..k + 1] + r[k + 1..];
    }
  }

  /**
   * For an address `local@domain` whose domain holds no '@', the local part
   * keeps its case and the domain is lower-cased.
   */
  lemma NormalizeEmailParts(local: string, domain: string)
    requires '@' !in domain
    ensures NormalizeEmail(local + "@" + domain) == local + "@" + Lower(domain)
  {
    var email := local + "@" + domain;
    var k := |local|;
    assert email[k] == '@';
    forall i | k < i < |email|
      ensures email[i] != '@'
    {
      assert email[i] == domain[i - k - 1];
    }
    assert LastIndex(email, '@') == k;
    assert email[..k] == local && email[k + 1..] == domain;
  }

  /**
   * SignUpView.post with SignUpForm.save(commit=True): validate; on success
   * create the user (its profile comes with the default role) and set the
   * profile's role to the chosen one.
   */
  method SignUp(s: Store, d: SignUpData) returns (r: Result<UserId, set<SignUpError>>)
    requires s.Valid()
    modifies s`users, s`profiles, s`nextUserId
    ensures s.Valid()
    ensures r.Failure? <==> !SignUpValid(old(s.users), d)
    ensures r.Failure? ==> r.error == SignUpErrors(old(s.users), d) && r.error != {}
    ensures r.Failure? ==> s.users == old(s.users) && s.profiles == old(s.profiles) && s.nextUserId == old(s.nextUserId)
    ensures r.Success? ==> r.value !in old(s.users)
    ensures r.Success? ==> s.users == old(s.users)[r.value := User(Strip(d.username), NormalizeEmail(Strip(d.email)))]
    ensures r.Success? ==> s.profiles == old(s.profiles)[r.value := RoleChoice(d.role).value]
    ensures r.Success? ==> s.profiles[r.value] != Admin
    ensures r.Success? ==> Strip(d.password) == Strip(d.passwordConfirm)
  {
    NoErrorsIffValid(s.users, d);
    if !SignUpValid(s.users, d) {
      return Failure(SignUpErrors(s.users, d));
    }
    var id := s.CreateUser(User(CleanCharField(d.username).value, NormalizeEmail(Strip(d.email))));
    s.SetRole(id, RoleChoice(d.role).value);
    return Success(id);
  }
}
