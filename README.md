# Blog workflow model

A Dafny model of the core of a Django blog. Authors write posts. Posts move
through draft, pending, approved and rejected. Only approved posts appear in
the public list and its search; the detail page shows a post of any status
at its slug. Readers comment and like. Staff run bulk moderation from the admin.

The model has six modules:

- `Wrappers` (`wrappers.dfy`): `Option` and `Result`.
- `Text` (`text.dfy`): ASCII string operations.
  - `str.strip`, `str.split` and the case-insensitive substring test behind `icontains`.
  - Decimal rendering of the slug suffix.
  - An ASCII `slugify`.
- `Models` (`models.dfy`): the entities, the field defaults, the slug loop and the store.
  - Entities: `Post`, `Comment`, `Like`, `User`, `Role`, `Status`.
  - The slug loop is the `Post.save` loop that appends `-1`, `-2`, … until a slug is free.
  - The store is the class `Store`. Its fields are the tables (posts, tags, likes, comments, users, profiles). Its methods are the ORM calls the rest of the code makes. `Store.Valid` holds the database constraints: unique slugs, a unique (post, user) per like, and likes and comments that refer to stored posts.
- `Forms` (`forms.dfy`): `PostForm.save` and `SignUpForm`.
  - `PostForm.save` parses the comma-separated tags, then clears the post's tags and adds the parsed ones back.
  - `SignUpForm` covers field cleaning, the password match and the role choice.
- `Views` (`views.dfy`):
  - The author-role check and the ownership gate of edit and delete.
  - The public list with its `q` and `tag` filters, and the pending and featured querysets.
  - The views that change the store: create, edit, delete, comment, like toggle.
- `Admin` (`admin.dfy`): the bulk actions `make_approved` and `toggle_featured`.

How the model represents the system:

- A queryset is the set of primary keys it returns.
- A request's user is a `Visitor` (anonymous or a user id).
- A response is its observable outcome: a redirect target, 403 or 404.
- The views run their checks in the order the dispatch chain does.
  - Create, edit and delete: login required, then author role, then the lookup by slug, then ownership.
  - Comment: the lookup (404) comes before the login check.

Two behaviours of the code are modelled as written:

- The existence query in `Post.save` sees the post's own stored row. So a stored post whose slug is empty is given a new, non-empty slug on its next save. `PostCreateView.form_valid` triggers this itself:
  - It saves the form once explicitly. `CreateView.form_valid` then saves it a second time.
  - So a post whose title slugifies to nothing is stored as `-1`, not with an empty slug. Or it gets the next free suffix.
  - `Views.SaveNewTwice` proves the created post always ends with a non-empty slug.
- Post lookups by slug ignore the status. A draft can be liked and commented on by any logged-in user who knows its slug.

## Model

Some definitions carry no contract of their own, and the lemmas in the table state what they mean:
- `Views.IsAuthorUser` (the author check) is described by `Views.SignedUpAuthorCheck`, `Views.AuthorGate` and `Views.OwnerGate`.
- `Views.MatchesQuery` (the `q` search) is described by `Views.PublicList`, `Views.SearchByTitleFinds` and `Views.ListedUnderOwnTag`.
- `Views.PendingQueue` and `Views.FeaturedDashboard` (the moderation querysets) are described by `Views.QueuesAgainstPublicList`, `Views.NewPostHidden`, `Admin.ApprovalPublishes` and `Admin.FlippedDashboard`.
- `Views.Toggled` (the like toggle) is described by `Views.ToggleFlips`, `Views.ToggleTwice`, `Views.ToggleFlipsLiked` and `Views.ToggleCount`.
- `Models.SetStatus` (the bulk update) is described by `Admin.SetStatusEffect`, `Admin.SetStatusIdempotent` and `Admin.ApprovalPublishes`.
- `Admin.Flipped` (the toggled selection) is described by `Admin.FlippedTwice`, `Admin.FlippedKeepsPublicList`, `Admin.FlippedDashboard` and `Admin.ToggledRowsFlipped`.
- `Forms.StrippedTokens` (the tag filter) is described, through `Forms.TagNames`, by the `Forms.TagNames…` lemmas.
- `Forms.NormalizeEmail` is described by `Forms.NormalizeEmailParts` and `Forms.NormalizeEmailIdempotent`.

| member | source | states |
|---|---|---|
| Models.BaseSlug | blog/models.py:49 | the base slug is the slugified title cut to its first 200 characters: a prefix of it, all of it when it is short enough, and exactly 200 characters otherwise |
| Models.UniqueSlug | blog/models.py:50-56 | the slug returned is the k-th candidate and is not taken; every earlier candidate is taken; a free base is used as is with no suffix; the loop stops within one probe more than there are taken slugs |
| Models.CandidatesBound | blog/models.py:52-55 | the first k candidates are pairwise distinct, so as long as the loop has not ended there are at least k taken slugs; this is what bounds the loop |
| Models.CandidateInjective | blog/models.py:54 | two suffix numbers give the same candidate only if they are equal (decimal rendering parses back) |
| Models.FirstFreeUnique | blog/models.py:53-56 | at most one k is the first free candidate, so the assigned slug is determined by the base and the taken slugs |
| Models.Store.SavePost | blog/models.py:47-57 | a save fails exactly when a non-empty slug is held by another row; success writes the row under its key or a new one; a non-empty slug is kept; an empty slug becomes the first free candidate of the base, held by no other row; the row's tags and all other rows are kept |
| Models.ResavedSlug | blog/models.py:47-57 | a new row saved and then saved again ends with a non-empty slug that no earlier row held, and that is the first free candidate once the empty slug counts as taken |
| Models.OwnSlugFree | blog/models.py:35 | with unique slugs, re-saving a stored row under its own key never meets a slug conflict |
| Models.Store.GetOrCreateLike | blog/models.py:84 | a row for the pair is created exactly when none exists, so the unique (post, user) constraint holds afterwards |
| Models.Without | blog/models.py:84 | deleting a pair's row removes that pair and no other and keeps pairs unique |
| Models.Store.DeletePost | blog/models.py:65-80 | deleting a post cascades to its likes and comments and leaves the other rows |
| Models.Store.CreateUser | blog/models.py:16 | a new user gets a fresh id and a profile with the default role, reader |
| Text.Strip | blog/forms.py:73 | the result has no surrounding whitespace and is no longer than the input |
| Text.StripSlice | blog/forms.py:73 | the stripped text is a contiguous piece of the input |
| Text.StripIdempotent | blog/forms.py:73 | stripping twice is stripping once |
| Text.StripOnlySpace | blog/forms.py:73 | what strip removes before and after the result is whitespace only |
| Text.SplitPieces | blog/forms.py:73 | split gives at least one piece, no piece holds the separator, and joining the pieces gives back the input |
| Text.SplitJoin | blog/forms.py:73 | splitting a join of separator-free pieces gives back those pieces |
| Text.Slugify | blog/models.py:49 | the slug neither starts nor ends with `-` or `_` |
| Text.SlugifyWellFormed | blog/models.py:49 | the slug has only lower-case letters, digits, `_` and `-`, no `-` or `_` at either end, and no `--` |
| Text.ParseNatToString | blog/models.py:54 | the `-{i}` suffix number is recovered from its decimal rendering |
| Text.Contains | blog/views.py:32 | containment holds exactly when the needle occurs at some position |
| Forms.TagNames | blog/forms.py:73 | an absent or empty tag field gives no names |
| Forms.TagNamesWellFormed | blog/forms.py:73 | every parsed tag name is non-empty, equals its own stripped form and holds no comma |
| Forms.TagNamesMembers | blog/forms.py:73 | the parsed names are exactly the non-blank pieces between commas, each stripped |
| Forms.TagNamesBlank | blog/forms.py:73 | an absent, empty or all-blank tag string gives no names |
| Forms.TagNamesJoin | blog/forms.py:73 | parsing the comma-join of well-formed names gives those names back |
| Forms.SavePostForm | blog/forms.py:65-77 | without commit nothing is stored; with commit the save fails exactly on a slug conflict; a saved post has the given author, exactly the parsed tag set, and the slug rules; the tag table grows by the parsed names and loses nothing; no other post changes |
| Forms.ReplaceTags | blog/forms.py:72-76 | after clearing and adding, the post's tags are exactly the names given and the tag table is the old one plus those names |
| Forms.AttachTag | blog/forms.py:74-76 | the tag row exists afterwards and the post's tag set gains that name; no other post changes |
| Models.Store.ClearTags | blog/forms.py:72 | the post's tag set becomes empty; every other column and row is kept |
| Models.Store.GetOrCreateTag | blog/forms.py:75 | the tag table afterwards holds the name, loses nothing, and a row is created exactly when the name was new |
| Models.Store.AddTag | blog/forms.py:76 | the post's tag set gains the name; no other post changes |
| Forms.RoleChoice | blog/forms.py:7-13 | only `author` and `reader` are accepted, never admin, and the accepted value names the role chosen |
| Forms.SignUpErrors | blog/forms.py:19-25 | a required field is reported exactly when its stripped value is empty; a taken username exactly when the stripped name is held by a stored user; an invalid role exactly when it is neither `author` nor `reader` |
| Forms.NoErrorsIffValid | blog/forms.py:19-25 | the form has no errors exactly when the required fields are present, the username is free, the role is valid and the passwords match |
| Forms.SignUpValidIffPasswordsMatch | blog/forms.py:23-24 | with the other fields in order, validation fails exactly when the two passwords differ |
| Forms.MismatchReported | blog/forms.py:23-24 | passwords whose stripped values differ are reported as a mismatch, and only those |
| Forms.PaddedPasswordAccepted | blog/forms.py:23-24 | any password and confirmation made of the same stripped text with any whitespace around it are not reported as a mismatch |
| Text.StripPadded | blog/forms.py:73 | strip removes exactly the whitespace added around a stripped string |
| Forms.NormalizeEmailParts | blog/forms.py:15-17 | the e-mail `local@domain` (no `@` in the domain) is stored with the local part as typed and the domain lower-cased |
| Forms.NormalizeEmailIdempotent | blog/forms.py:15-17 | normalising an already normalised e-mail changes nothing |
| Forms.SignUp | blog/forms.py:27-35 | sign-up fails exactly when the form is invalid, with its errors; on success the new user is stored with the stripped username, the stripped and normalised e-mail, and a profile whose role is the chosen one, never admin |
| Models.Store.SetRole | blog/forms.py:33-34 | the user's profile gets the role given and no other profile changes |
| Views.SignedUpAuthorCheck | blog/views.py:17-19 | a user who just signed up passes the author check exactly when the role chosen was `author`; no other user's answer changes |
| Views.AuthorGate | blog/views.py:63 | login redirect exactly for an anonymous visitor, 403 exactly for a logged-in user who fails the author check, and otherwise the request goes on exactly when the user may create posts |
| Views.FindBySlug | blog/views.py:102 | the lookup returns the post holding the slug, or nothing when no post holds it |
| Views.FindBySlugExact | blog/models.py:35 | with unique slugs, looking up a stored post's slug finds that post |
| Views.OwnerGate | blog/views.py:80-84 | an anonymous visitor is sent to login and any other gate denial of the author check is passed on; a logged-in non-author and an author who does not own the post found both get 403; 404 exactly when the author check passes and no post holds the slug; a request let through names the post holding the slug, owned by the visitor |
| Views.OwnerGateAllows | blog/views.py:80-96 | edit and delete go ahead exactly when the visitor is an author who owns the post found by the slug |
| Views.NonOwnerForbidden | blog/views.py:82-83 | an author who does not own the post gets 403 |
| Views.PublicList | blog/views.py:27-35 | a post is listed exactly when it is approved, matches a given `q` in title, body or a tag name (case-insensitively), and carries a given tag by exact name |
| Views.UnapprovedNeverListed | blog/views.py:28 | a draft, pending or rejected post is never listed, whatever the filters |
| Views.FiltersConjunctive | blog/views.py:31-34 | the search and tag filters compose as an intersection |
| Views.FiltersNarrow | blog/views.py:31-34 | each filter only narrows the unfiltered list |
| Views.BlankParameterIgnored | blog/views.py:31-34 | an empty `q` or `tag` is the same as none |
| Views.SearchByTitleFinds | blog/views.py:32 | searching for an approved post's own title finds it |
| Views.ListedUnderOwnTag | blog/views.py:32-34 | an approved post is listed under each of its tag names, by exact tag and by search |
| Views.QueuesAgainstPublicList | blog/views.py:114-123 | every dashboard post is publicly listed; no pending post is |
| Views.NewPostHidden | blog/models.py:39-40 | a post with the default status and flag is in no list |
| Models.Store.DeleteLike | blog/views.py:105 | the pair's row is removed and every other row kept |
| Models.Store.AddComment | blog/views.py:59 | the comment is appended and every earlier comment kept |
| Views.ToggleFlips | blog/views.py:103-105 | a toggle adds the pair when absent and removes it when present, leaves every other pair, and keeps pairs unique |
| Views.ToggleTwice | blog/views.py:103-105 | two toggles of one pair restore the like rows |
| Views.ToggleFlipsLiked | blog/views.py:46 | a toggle turns the detail page's liked flag around for that user |
| Views.ToggleCount | blog/views.py:103-105 | a like adds one to the post's like count, an unlike takes one away |
| Views.ToggleLikeView | blog/views.py:99-106 | a visitor the policy does not let like (an anonymous one) is sent to login and 404 is given for an unknown slug, with no change either way; otherwise the pair's row is toggled, whatever the post's status |
| Views.PostCommentView | blog/views.py:49-60 | an unknown slug is 404 and an anonymous visitor is sent to login, with no comment either way; a valid body is stored stripped, bound to the post and the user; a comment is added only when the policy permits commenting |
| Views.CreatePostView | blog/views.py:63-72 | a non-author gets the login redirect or 403 and nothing changes; an author gets a new post with those fields, the author set, the parsed tags and a non-empty fresh slug, and is redirected to it |
| Views.SaveNewTwice | blog/views.py:70-72 | the two saves leave one new post with the parsed tags, the tag table grown by those names only once, and a non-empty first-free slug |
| Views.UpdatePostView | blog/views.py:75-84 | a denied gate changes nothing; the owner's edit rewrites the fields, keeps the author and the slug, and replaces the tags with the parsed ones |
| Views.DeletePostView | blog/views.py:87-96 | a denied gate changes nothing; the owner's delete removes the post with its likes and comments and redirects to the list |
| Admin.MakeApproved | blog/admin.py:5-7 | the selected posts become approved through one update |
| Models.Store.UpdateStatus | blog/admin.py:7 | the new posts table is the old one with the selected rows' status set |
| Admin.SetStatusEffect | blog/admin.py:7 | the update changes the selected rows' status and no other column, no other row and no key |
| Admin.SetStatusIdempotent | blog/admin.py:7 | approving twice is approving once |
| Admin.ApprovalPublishes | blog/admin.py:7 | approval adds exactly the selected stored posts to the public list and takes them off the pending queue |
| Admin.FlipRow | blog/admin.py:13 | the flag is negated and nothing else changes |
| Admin.FlippedTwice | blog/admin.py:12-13 | toggling a selection twice restores every row |
| Admin.FlippedKeepsPublicList | blog/admin.py:12-14 | toggling does not change the public list under any filters |
| Admin.FlippedDashboard | blog/admin.py:12-14 | toggling moves the selected approved posts into or out of the featured dashboard and leaves it otherwise unchanged |
| Admin.SaveFlipped | blog/admin.py:13-14 | one save writes the row with its flag negated and all else kept, except that an empty slug becomes the first free candidate of the title's base slug |
| Admin.ToggleFeatured | blog/admin.py:10-14 | every selected row is saved flipped and every other row is unchanged; when no selected slug is empty the posts are exactly the flipped ones |
| Admin.ToggledRowsFlipped | blog/models.py:48 | with all selected slugs set, the per-row result is the flipped selection |

## Left out

- Admin.ToggleFeatured: the slug is promised unchanged only for rows whose slug is already non-empty. Post.save re-slugs a stored row with an empty slug, so the posts equal `Flipped` only in that case.
- Login, logout, `authenticate` and `set_password` (blog/views.py:140-162, blog/forms.py:29). They are Django's authentication and password hashing. A stored user has no password column: sign-up checks the passwords and then drops them.
- The signal handler that creates a profile for each new user is not part of this model. `Store.CreateUser` creates the profile with the default role in its place.
- The staff-only decorator on the pending and featured views. Only their querysets are modelled.
- Template rendering, pagination, CSS classes on form widgets, URL routing. These are presentation; a redirect is modelled by its target.
- `slugify`'s Unicode handling. It is modelled on ASCII: the NFKD folding of non-ASCII characters is not modelled, and they are dropped. So a no-break space (U+00A0), which Django folds to a space and then a hyphen, is dropped by the model.
- Unicode case in e-mail domains and Unicode normalisation of usernames. `User.clean` lower-cases the e-mail domain with Python's full Unicode `lower()` and applies NFKC to the username; the model lower-cases ASCII letters in the domain and keeps the stripped username as typed.
- Case-insensitive matching for `icontains` uses ASCII lower-casing, as SQLite does. Other databases' collations are not modelled.
- Timestamps and the newest-first ordering. A queryset is a set, so order and pagination are not modelled; distinctness is inherent.
- Field length limits (`max_length`) and e-mail format validation. Form validation of `title`, `body` and `status` is assumed passed: the view methods take cleaned values.
- Concurrent requests and races between slug assignment and the unique constraint. Each request is one atomic step.
- Foreign keys to users. `Post.author`, `Like.user` and `Comment.user` are user ids that `Store.Valid` does not tie to stored users, and deleting users (and the cascade from it) is not modelled.
- Non-ASCII whitespace. `str.strip` also removes Unicode spaces such as U+00A0, U+0085 and U+3000; `Text.IsSpace` knows only the ASCII ones.
- The comment `approved` flag. It is stored with its default, true, and never read.
- The username validator's character and length rules. A username is modelled as required, stripped and unique only.
