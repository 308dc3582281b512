# Blog snippet moderation, slug resolution, tags, image names and login — a Dafny model

This project models the small sequential core under the Flask/SQLAlchemy blog backend:

- **Snippet moderation.** A `SnippetModel` is a draft while its `published_date` is
  null and published once it is set. `approve` and `revoke_approval` flip the date.
  The endpoints refuse to approve twice and to revoke a draft, each with its own
  message and with no change of state. The public detail endpoint hides drafts,
  and the draft detail endpoint hides published snippets. Create refuses a taken
  title. Update overwrites the text fields and replaces the tag list wholesale.
  The table is a class holding a sequence of snippet objects. Each snippet is an
  object whose mutable columns the methods update in place.
- **Slug resolution.** `find_by_slug` turns every `-` of the slug into a space
  (`" ".join(slug.split("-"))`). It then matches titles case-insensitively. The
  model keeps that split/join literally and proves it is a character-wise
  replacement. The round trip through a reference slugify holds for titles
  without `-`. A title with `-` can never be found.
- **Tag get-or-create.** This is an idempotent upsert into a name-unique table. A
  pure function (`Tags.Resolve`) specifies it and the method `TagTable.GetOrCreate`
  implements it. The loops that attach tags to a snippet are specified by
  `Tags.ResolveAll`.
- **Image file names.** `is_filename_safe` is modelled as its regular expression
  reads under Python's `re`, together with `get_basename` and `get_extension`
  with POSIX `os.path` semantics.
- **Login, logout and refresh.** Login decides between 200 (tokens), 400 (inactive)
  and 401 (unknown user or wrong password). Logout adds the token id to a
  blacklist that only grows. Revocation is membership in that blacklist.

Modules: `Wrappers` (Option), `Lookup` (first/last position searches), `Slug`,
`Tags`, `Snippets`, `SnippetResources`, `ImageHelper`, `UserResources`.

Some external things are parameters: the clock (`now: Time`), bcrypt's password
check (`checkPassword`), the allowed image formats (`formats`, the library's
`IMAGES`) and the token id of the request (`jti`).

Where the specification and the code differ, the model follows the code:

- The code has no slugify. `Slug.Slugify` is only a reference inverse used in lemmas.
- The code attaches one tag per input name, in order, and keeps duplicates. It does
  not deduplicate.
- The code does not check that a title is non-empty.

## Model

| member | source | states |
|---|---|---|
| `Slug.Split` | src/api/models/snippet.py:43 | `str.split` on one character: at least one piece, and no piece contains the separator |
| `Slug.JoinSplitIsReplace` | src/api/models/snippet.py:43 | splitting on `-` and joining with a space replaces each `-` with a space and leaves the other characters in place |
| `Slug.JoinSplitRoundTrip` | src/api/models/snippet.py:43 | joining the pieces of a split with the same separator gives the string back |
| `Slug.Unslug` | src/api/models/snippet.py:43 | the un-slugged title has the slug's length and no `-`; each `-` became a space, and every other character is kept |
| `Slug.SlugRoundTrip` | src/api/models/snippet.py:42-44 | a title without `-` un-slugs back to itself from its slug (spaces replaced by `-`) |
| `Slug.DashedTitleNeverMatches` | src/api/models/snippet.py:42-44 | a title containing `-` never matches an un-slugged slug case-insensitively |
| `Slug.UnslugCaseInsensitive` | src/api/models/snippet.py:44 | a slug and its lower-cased form match exactly the same titles |
| `Tags.FindById` | src/models/tag.py:11-13 | returns a stored tag with that id, and None exactly when no row has it |
| `Tags.FindByName` | src/models/tag.py:15-17 | exact, case-sensitive: returns a stored tag with that name, and None exactly when no row has it |
| `Tags.FindByNameUnique` | src/models/tag.py:9-17 | with unique names, looking up a stored name gives exactly that row |
| `Tags.Resolve` | src/models/tag.py:19-25 | the result carries the name and is in the table. An existing name leaves the table unchanged. A new name adds exactly one row with the next id |
| `Tags.ResolveKeepsWellFormed` | src/models/tag.py:19-25 | one get-or-create call keeps names and ids unique and below the next id |
| `Tags.ResolveIdempotent` | src/models/tag.py:19-25 | two calls with the same name return the same tag, and the second call leaves the table as the first left it. The table grows by at most one row in total |
| `Tags.ResolveAllNames` | src/resources/snippet.py:26-30 | a series of get-or-create calls yields one tag per name, in order, each carrying its name |
| `Tags.ResolveAllGrows` | src/models/tag.py:19-25 | after any series of calls, the old rows stay in front, at most one row is added per name, and names and ids stay unique |
| `Tags.ResolveAllStored` | src/resources/snippet.py:28-30 | every resolved tag is a row of the table left behind |
| `Tags.ResolveAllKnownNames` | src/models/tag.py:21-25 | names that are all already stored resolve without changing the table |
| `Tags.TagTable.GetOrCreate` | src/models/tag.py:19-25 | the new table and the returned tag are those of `Resolve`, and the table's constraints hold afterwards |
| `Snippets.SnippetModel.constructor` | src/api/models/snippet.py:14-29 | a new snippet is a draft with no tags, carrying the given columns |
| `Snippets.SnippetModel.Approve` | src/api/models/snippet.py:50-52 | the publication date becomes `now`; every other column is unchanged |
| `Snippets.SnippetModel.RevokeApproval` | src/api/models/snippet.py:54-56 | the publication date becomes null; every other column is unchanged |
| `Snippets.Filter` | src/api/models/snippet.py:36-39 | keeps exactly the snippets in the requested publication state |
| `Snippets.FilterPartition` | src/api/models/snippet.py:36-39 | the published and the draft filters split the sequence, as multisets |
| `Snippets.SnippetTable.FindAll` | src/api/models/snippet.py:35-39 | `published=True` gives exactly the rows with a date, and `False` exactly the rows without one |
| `Snippets.FindAllPartition` | src/api/models/snippet.py:35-39 | `find_all(True)` and `find_all(False)` together are the table, each row exactly once |
| `Snippets.SnippetTable.FindBySlug` | src/api/models/snippet.py:41-44 | returns a stored snippet whose title equals the un-slugged slug up to case, and None exactly when no title does |
| `Snippets.SnippetTable.FindByTitle` | src/api/models/snippet.py:46-48 | exact, case-sensitive: returns a stored snippet with that title, and None exactly when there is none |
| `Snippets.FindByTitleFindsStored` | src/api/models/snippet.py:46-48 | with unique titles, looking up a stored title gives exactly that snippet |
| `Snippets.FindBySlugNeverDashed` | src/api/models/snippet.py:42-44 | a snippet found by slug never has `-` in its title |
| `Snippets.FindBySlugIgnoresCase` | src/api/models/snippet.py:44 | a slug and its lower-cased form resolve to the same snippet |
| `Snippets.FindBySlugOfTitle` | src/api/models/snippet.py:42-44 | the slug of a stored title without `-`, in either case, resolves to that snippet when no other title equals it up to case |
| `Snippets.SnippetTable.SaveToDb` | src/api/models/snippet.py:58-60 | a stored snippet is committed as it is. A new one is appended, unless its title is taken, which fails and changes nothing. Titles stay unique |
| `Snippets.SnippetTable.DeleteFromDb` | src/api/models/snippet.py:62-64 | removes exactly that snippet and keeps the others in order |
| `SnippetResources.SnippetsGet` | src/resources/snippet.py:14-17 | 200; every listed view is the view of a published row of the table, and every published row is listed |
| `SnippetResources.SnippetsNotApprovedGet` | src/resources/snippet.py:76-80 | 200; every listed view is the view of a draft row of the table, and every draft is listed |
| `SnippetResources.SnippetDetailGet` | src/resources/snippet.py:37-42 | 200 with the snippet exactly when the slug resolves to a published snippet; otherwise 404 "Snippet does not exist" |
| `SnippetResources.SnippetNotApprovedDetailGet` | src/resources/snippet.py:85-90 | 200 with the snippet exactly when the slug resolves to a draft; otherwise 404 "Snippet does not exist" |
| `SnippetResources.DetailVisibility` | src/resources/snippet.py:38-42 | a resolving slug is shown by exactly one of the public and the draft detail endpoints, and a non-resolving slug by neither |
| `SnippetResources.AttachTags` | src/resources/snippet.py:26-30 | the tag table and the appended tags are those of `ResolveAll` over the names, in order |
| `SnippetResources.SnippetsPost` | src/resources/snippet.py:19-32 | a taken title gives 400 "This title is already taken" and stores nothing. Otherwise it gives 201 and appends one new draft carrying the input fields, with one resolved tag per input name, in input order. Titles stay unique |
| `SnippetResources.SnippetDetailPut` | src/resources/snippet.py:44-62 | a missing slug gives 404 and no change. Otherwise description, code and language are overwritten and the tag list is replaced by the resolved names (empty when tags are absent or empty). Title and publication date are unchanged, no other snippet changes, and the response is 200 |
| `SnippetResources.SnippetDetailDelete` | src/resources/snippet.py:64-71 | a missing slug gives 404 and no change; otherwise exactly that snippet is removed and the response is 200 "Snippet deleted" |
| `SnippetResources.ApproveSnippetPost` | src/resources/snippet.py:93-104 | a missing slug gives 404. A published snippet gives 400 "Snippet have been already approved" and stays untouched. Otherwise the snippet is published at `now` and the response is 200. No other snippet changes |
| `SnippetResources.RevokeApprovalSnippetPost` | src/resources/snippet.py:107-118 | a missing slug gives 404. A draft gives 400 "Snippet is not published yet" and stays untouched. Otherwise the snippet becomes a draft and the response is 200. No other snippet changes |
| `SnippetResources.ApproveTwice` | src/resources/snippet.py:97-104 | approving a draft twice: the first call gives 200, the second gives 400, and the first date is kept |
| `SnippetResources.ApproveThenRevoke` | src/resources/snippet.py:97-118 | approve followed by revoke leaves a found snippet a draft, with its other columns as before |
| `ImageHelper.RetrieveFilename` | src/libs/image_helper.py:37-44 | a plain string comes back unchanged; a file object gives its file name |
| `ImageHelper.IsFilenameSafe` | src/libs/image_helper.py:47-59 | an accepted name has at least two characters, starts with an ASCII letter or digit and contains a `.` |
| `ImageHelper.SafeFilenameHasNoSlash` | src/libs/image_helper.py:47-59 | when no allowed format holds a `/`, an accepted name holds none and does not start with `.`, so it cannot leave the upload folder |
| `ImageHelper.SafeFilenameShape` | src/libs/image_helper.py:47-59 | every accepted name is an ASCII letter or digit, then characters of the bracket class as the regex reads it, then `.` and an allowed format, possibly followed by one newline |
| `ImageHelper.ShapeIsSafeFilename` | src/libs/image_helper.py:47-59 | every name of that shape is accepted |
| `ImageHelper.StarNameAccepted` | src/libs/image_helper.py:58 | `a*.png` is accepted, although `*` is not a documented character |
| `ImageHelper.TrailingNewlineAccepted` | src/libs/image_helper.py:58-59 | `a.png` followed by a newline is accepted |
| `ImageHelper.IntendedShape` | src/libs/image_helper.py:47-53 | the documented check accepts only names that end in `.` and an allowed format and consist of letters, digits and `_().-` |
| `ImageHelper.IntendedIsStricter` | src/libs/image_helper.py:47-59 | every name the documented check accepts is accepted by the check as written |
| `ImageHelper.GetBasename` | src/libs/image_helper.py:62-67 | the result is the longest suffix of the name without `/`: it contains no `/`, and it is the whole name or follows a `/` |
| `ImageHelper.ExtensionOf` | src/libs/image_helper.py:70-73 | the result is empty, or a `.` followed by no other `.`; in both cases it is a suffix of the base name |
| `ImageHelper.GetExtension` | src/libs/image_helper.py:70-73 | the result is empty or starts with `.` and has no further `.`; it has no `/` and is a suffix of the base name |
| `ImageHelper.ExtensionPresent` | src/libs/image_helper.py:70-73 | the extension is non-empty exactly when the base name has a `.` after some character that is not `.` |
| `UserResources.FindByUsername` | src/models/user.py:29-31 | exact lookup: returns a stored user with that name, and None exactly when there is none |
| `UserResources.UserLoginPost` | src/resources/user.py:19-34 | 401 "Invalid username or password" exactly when no user has the name or the password check fails. Otherwise 200 with a fresh access token and a refresh token for the user's id exactly when the user is active, and 400 "User … is not active" (no tokens) when inactive |
| `UserResources.LoginIssuesTokensForOwner` | src/resources/user.py:24-34 | with unique usernames, the outcome is decided by the user holding that name: 401 on a wrong password, 400 if inactive, tokens for that user's id if active |
| `UserResources.TokenRefreshPost` | src/resources/user.py:48-54 | 200 with an access token for the same identity that is not fresh |
| `UserResources.RefreshAfterLogin` | src/resources/user.py:48-54 | refreshing with a login's refresh token gives the login's access token with freshness dropped |
| `UserResources.Blacklist.Add` | src/resources/user.py:44 | the blacklist gains that id and nothing else changes |
| `UserResources.IsRevoked` | src/app.py:40-43 | a token is refused exactly when its id is in the blacklist. The predicate is that membership test and has no contract of its own; `UserLogoutPost`, `RevokedExactlyLoggedOut` and `LogoutAll` state what it holds after logouts |
| `UserResources.UserLogoutPost` | src/resources/user.py:41-45 | 200. The token id joins the blacklist, the token is then reported revoked (as in src/app.py), and every id that was revoked stays revoked |
| `UserResources.RevokedOnlyGrows` | src/resources/user.py:44 | after any series of logouts the revoked set contains the old one and every logged-out id |
| `UserResources.RevokedExactlyLoggedOut` | src/resources/user.py:41-45 | after any series of logouts an id is revoked exactly when it was revoked before or was logged out |
| `UserResources.LogoutAll` | src/resources/user.py:41-45 | logging out a series of tokens leaves exactly the old ids plus the logged-out ones in the blacklist |

## Left out

- HTTP routing, request parsing and the `jwt_required` decorators: handlers take their inputs as parameters. `TokenRefreshPost` requires a refresh token, which is what `jwt_refresh_token_required` enforces.
- Schema loading and dumping (marshmallow): a posted snippet is a record of its fields, and a response body is a snapshot of the columns. A posted `published_date` or `created_date` is not modelled, so a created snippet is always a draft dated by the request's clock.
- `SnippetDetailPut`: a body missing `description`, `code` or `language` raises a key error in the code (a 500). The model's body always has them. A tag entry without `"name"` raises a key error in the middle of the tag loop (src/resources/snippet.py:59). By then earlier `get_or_create` commits (src/models/tag.py:24) may already have stored the new text fields and the emptied tag list, so the code can leave a half-applied update. The model's tag entries are names, so they always have one.
- `SnippetModel.id` and `find_by_id`: object identity stands for the primary key. No modelled endpoint uses the id.
- SQL `ILIKE` wildcards `%` and `_`, its default escape character `\`, and the database's collation: the match is modelled as equality after ASCII lower-casing. With real `ILIKE`, a `_` in a slug would also match a `-` in a title, and `\_` in a slug would match only a literal `_`.
- `.first()` without an ordering: the model takes the first row in table order. The database may pick any matching row.
- `datetime.utcnow()`: the clock is the parameter `now`.
- Commit failures, transactions and concurrent writers, including duplicate-creation races in `get_or_create`. Under one sequential writer, the title check in `SnippetsPost` guarantees the insert succeeds.
- `TagModel.save_to_db` is covered by `GetOrCreate`'s insert. `TagModel.delete_from_db` is not modelled: no modelled flow deletes a tag.
- `save_image`, `get_path`, `find_image_any_format`: filesystem and upload-library I/O.
- Allowed image formats are a parameter, and each format is read as literal text, as the letters-only entries of the library's list are. Paths follow POSIX `os.path` rules.
- Password hashing (bcrypt) is the parameter `checkPassword`. Token encoding, signing and token-id generation are not modelled: a token is its claims.
- Persistence and expiry of the blacklist.
- `SnippetsGet`: states which snippets are listed, not the order of the list or that each appears once (`FindAllPartition` states the latter for the underlying query).
- `SnippetsNotApprovedGet`: states which snippets are listed, not the order of the list or that each appears once (`FindAllPartition` states the latter for the underlying query).
- Articles, the user model beyond `find_by_username`, migrations and schemas: these files have no logic of their own in the part of the repository modelled here.

## Findings

| source | as written | input that shows it | evidently intended | confidence | as-written member | corrected member |
|---|---|---|---|---|---|---|
| src/libs/image_helper.py:58 | `()-\.` inside the bracket class is the range `)`..`.`, which also admits `*`, `+` and `,` | `a*.png` with `png` allowed is accepted | only letters, digits and `_().-`, as the docstring (lines 50-51) says | high; not executed | `ImageHelper.StarNameAccepted` | `ImageHelper.IntendedShape` |
| src/libs/image_helper.py:58-59 | `$` under `re.match` also matches just before a final newline | `a.png` followed by `\n` is accepted | the format is at the very end of the name (docstring, line 52) | high; not executed | `ImageHelper.TrailingNewlineAccepted` | `ImageHelper.IntendedShape` |
