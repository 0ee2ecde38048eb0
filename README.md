# yamdb: roles, permissions, validation and the review store

This is a Dafny model of the rules of the yamdb review service, a Django REST API. On it, users review titles (films, books, songs) and comment on reviews. The model covers two layers.

- **Roles and permissions** (`users.dfy`, `permissions.dfy`). The `User` record and its role properties are modelled as pure predicates. So are the four permission classes of the API and the framework's `IsAuthenticated` / `IsAuthenticatedOrReadOnly`, each a total predicate over the request method, the requester and the object's author. Lemmas give their truth tables.
- **The store and the handlers that change it**:
  - `store.dfy` holds the six tables (users, categories, genres, titles, reviews, comments). It has their unique and check constraints, their foreign keys and their `on_delete` rules. `class Database` holds the tables and the auto-increment counters. Its insert, save and delete methods keep `Valid()`, which is every database constraint plus fresh keys. `Sound()` adds two facts that the field validators keep rather than the database: every score is in 1..10 and every role is a declared choice. The deletes keep `Sound()`. The review writes keep it only for a score in 1..10 (`Store.PutScoreIff`), because the column also holds 0 and 11..32767. The user writes keep it only for a role among the choices. The handlers pass only such rows, and each handler proves it keeps `Sound()`.
  - `serializers.dfy` holds the request-body validation:
    - the framework's `CharField` cleaning (strip, blank, `max_length`);
    - the sign-up serializer with its validators, `create` and `update`;
    - the user serializer as it actually behaves;
    - the review and comment serializers.
  - `views.py` is modelled by `views.dfy`, with these handlers:
    - `signup` and `obtain_token`;
    - the users view's permission choice, `partial_update` and `destroy`;
    - the review and comment `perform_create`;
    - the title view's serializer choice.

  Each handler runs the framework's steps in the order the framework takes for it, and answers with a status code and a body:
  - the users view's update and delete run the view-level permissions, then the handler's own branches, then object lookup (404) and the object-level check, then validation (400), then the database write;
  - review and comment creation run the view-level permissions, then field validation (400), then the title or review lookup (404) that `validate` and `perform_create` make, then the insert.

  Every handler keeps `Sound()`. Every refusal leaves the tables unchanged.
- `queries.dfy` holds what the database does to a queryset: enumerating rows (in key order, a choice of the model), ordering by `-pub_date`, and `Avg`.

The source functions map onto these predicates and functions, whose rows below are the lemmas and contracts that state their properties:

- `is_user`, `is_admin`, `is_moderator`: `Users.IsUser`, `Users.IsAdmin`, `Users.IsModerator`.
- `UsersPermission.has_object_permission`: `Permissions.UsersHasObjectPermission`.
- `ReviewCommentPermission.has_permission` and `has_object_permission`: `Permissions.ReviewCommentHasPermission` and `Permissions.ReviewCommentHasObjectPermission`.
- `IsAdminUserOrReadOnly` and `IsAdminOrSuperuser`: `Permissions.AdminOrReadOnlyHasPermission` and `Permissions.AdminOrSuperuserHasPermission`.
- `UsersViewSet.get_permissions`: `Views.UsersPermissions` with `Views.UsersHasPermission`.
- `default_token_generator.check_token`: `Views.CheckToken`, over the generator passed in.
- The `rating` annotation of `TitlesViewSet`: `Store.TitleRating`.

These behaviours of the code are modelled as written rather than as their comments or names suggest:

- `UsersSerializer.Meta` contains `validate_username` and `validate_email`. They are nested inside `Meta`, so they are not serializer methods and never run. The model serializer still derives a `max_length` and a `UniqueValidator`, which skips the instance itself, for `username` (unique on `AbstractUser`) and for `email` (`unique=True`). So a `PATCH` is refused for a username or email in use by another user. The username `me` is let through. The database's `username_not_me` check constraint then refuses the row, and the request ends in a server error (500). `Serializers.UsersSerializerAcceptsMe`, `Serializers.PatchSaveFailsOnlyForMe` and the 500 case of `Views.UsersPartialUpdate` state this.
- In `signup`, the second `save(confirmation_code=token)` goes through `SignUpSerializer.update`. That method only assigns `username` and `email`, so the token is never stored. The row stays as `create` inserted it, with an empty confirmation code (`Serializers.SecondSaveIsIdentity`, `Views.Signup`).
- `ReviewSerializer` declares `author` and `title` read-only, so the framework derives no unique-together validator for them. `validate` runs after the field validators. So a bad `text` or `score` gives 400 even when the title is missing. The duplicate check in `perform_create` raises an exception that is not the framework's `ParseError`, so it would give a 500. It never fires, because `validate` has already refused the duplicate.
- Comment creation looks the review up by `review_id` alone. The `title_id` of the path plays no part.
- A refused permission check answers 401 when the request carries no credentials and 403 otherwise.
- `UsersPermission.has_object_permission` reads `is_admin` on the requesting user, and an anonymous user has no such attribute. The model keeps that as a `None` result. `Views.UsersObjectCheckNeverFaults` shows that the view-level check always refuses anonymous requests first.

The token generator (`check_token`) is passed in as a function parameter. It is wrapped in the framework's own refusal of an empty token. The request time (`now`) and the sign-up token are also parameters.

## Model

| member | source | states |
|---|---|---|
| Users.NewUser | api_yamdb/users/models.py:7-19 | a created user has the given username and email, the default role `user`, an empty bio, confirmation code, first and last name, and is neither staff nor superuser |
| Users.RolePropertiesExclusive | api_yamdb/users/models.py:30-40 | no user has two of `is_user`, `is_admin`, `is_moderator` |
| Users.ExactlyOneRoleIffValid | api_yamdb/users/models.py:30-40 | one of the three role properties holds exactly when the role is one of the declared choices |
| Users.RowAdmissibleIff | api_yamdb/users/models.py:18-28 | writing a user row keeps "no user named `me`", unique emails and unique usernames exactly when the row is not `me` and clashes with no other row |
| Users.FreshRowAdmissible | api_yamdb/users/models.py:18-28 | for a new key, a row is admissible exactly when its username is not `me` and neither its username nor its email is in use |
| Users.RewriteAdmissible | api_yamdb/users/models.py:18-28 | writing a stored row back unchanged never breaks a constraint |
| Users.StoredUserHasOneRole | api_yamdb/users/models.py:7-40 | in a table whose roles are all declared choices, every stored user has exactly one of the three role properties |
| Users.FindByUsername | api_yamdb/api/views.py:49 | the lookup by username finds a row exactly when one has that username, and the row it finds has it |
| Users.FindByUsernameFinds | api_yamdb/api/views.py:32-33 | looking up a stored user's own username finds that very user |
| Permissions.UsersObjectPermissionIff | api_yamdb/api/permissions.py:5-7 | `UsersPermission` fails (raises) only for an anonymous requester, and for a member grants exactly when they are admin or the body has no non-null `role` |
| Permissions.ReviewCommentSafeAlwaysAllowed | api_yamdb/api/permissions.py:12-27 | a safe method passes both review/comment checks, for anonymous requesters too |
| Permissions.ReviewCommentWriteNeedsAuthentication | api_yamdb/api/permissions.py:12-17 | an unsafe method passes the view-level review/comment check exactly when the requester is authenticated |
| Permissions.ReviewCommentObjectMatchesPolicy | api_yamdb/api/permissions.py:19-27 | the object check equals the policy "safe, or authenticated and (POST, staff, admin, moderator or the author)" for every input |
| Permissions.PlainUserCannotEditOthers | api_yamdb/api/permissions.py:19-27 | a plain user who is not staff and not the author is refused PUT, PATCH and DELETE |
| Permissions.AdminOrReadOnlyUnsafeIff | api_yamdb/api/permissions.py:30-33 | `IsAdminUserOrReadOnly` admits an unsafe method exactly for an authenticated admin |
| Permissions.SuperuserWithoutAdminRoleIsReadOnly | api_yamdb/api/permissions.py:30-33 | without role `admin`, staff and superusers are refused every unsafe method |
| Permissions.AdminOrSuperuserIff | api_yamdb/api/permissions.py:36-39 | `IsAdminOrSuperuser` admits exactly authenticated admins and superusers, whatever the method, and never an anonymous requester |
| Queries.InsertNewestFirst | api_yamdb/reviews/models.py:63 | inserting a key into a newest-first sequence keeps it newest first and adds exactly that key |
| Queries.SortNewestFirst | api_yamdb/reviews/models.py:63 | the sorted rows are newest first and a permutation of the input |
| Queries.Mean | api_yamdb/api/views.py:103-104 | the average is absent (SQL `NULL`) exactly when there are no rows |
| Queries.MeanBounds | api_yamdb/api/views.py:103-104 | the average of values in [lo, hi] lies in [lo, hi] |
| Store.ClearCategory | api_yamdb/reviews/models.py:28-31 | `SET_NULL`: every title is kept, no title refers to the deleted category, and only titles that did have it lose their category |
| Store.DropGenre | api_yamdb/reviews/models.py:32-34 | every title is kept, and each loses exactly the deleted genre from its genres |
| Store.ReviewListing | api_yamdb/reviews/models.py:63 | a title's reviews list holds every review of that title and nothing else, each once, newest first |
| Store.CommentListing | api_yamdb/reviews/models.py:90 | a review's comments list holds every comment on that review and nothing else, each once, newest first |
| Store.TitleRatingInRange | api_yamdb/api/views.py:103-104 | a title has a rating exactly when it has reviews, and when every score is in 1..10 so is the rating |
| Store.PutUserIff | api_yamdb/users/models.py:18-28 | writing a user row keeps every database constraint exactly when the row is admissible |
| Store.TagAdmissibleIff | api_yamdb/reviews/models.py:8-21 | writing a category or genre row keeps slugs unique exactly when its slug clashes with no other row |
| Store.FreshTagAdmissible | api_yamdb/reviews/models.py:8-21 | for a new key, a tag is admissible exactly when its slug is not in use |
| Store.PutCategoryIff | api_yamdb/reviews/models.py:10 | writing a category keeps every constraint exactly when its slug is free |
| Store.PutGenreIff | api_yamdb/reviews/models.py:18 | writing a genre keeps every constraint exactly when its slug is free |
| Store.PutTitleIff | api_yamdb/reviews/models.py:24-34 | writing a title keeps every constraint exactly when its category (if any) and genres are stored |
| Store.PutReviewIff | api_yamdb/reviews/models.py:40-69 | writing a review keeps every constraint exactly when its author and title are stored and no other review has the same author and title |
| Store.FreshReviewAdmissible | api_yamdb/reviews/models.py:64-69 | for a new key, a review is admissible exactly when its author and title are stored and the author has not reviewed that title |
| Store.PutScoreIff | api_yamdb/reviews/models.py:47-52 | writing a review keeps every score in 1..10 exactly when its own score is |
| Store.PutCommentIff | api_yamdb/reviews/models.py:72-87 | writing a comment keeps every constraint exactly when its author and review are stored |
| Store.RemoveUser | api_yamdb/reviews/models.py:42-77 | deleting a user removes exactly their reviews, their comments and the comments on their reviews, and changes no remaining row |
| Store.RemoveUserConsistent | api_yamdb/reviews/models.py:42-77 | deleting a user keeps every constraint and every score in range, and removes only rows |
| Store.RemoveCategory | api_yamdb/reviews/models.py:28-31 | deleting a category deletes no title, clears that category from every title that had it and changes nothing else |
| Store.RemoveCategoryConsistent | api_yamdb/reviews/models.py:28-31 | deleting a category keeps every constraint |
| Store.RemoveGenre | api_yamdb/reviews/models.py:32-34 | deleting a genre deletes no title, removes it from every title's genres and changes nothing else |
| Store.RemoveGenreConsistent | api_yamdb/reviews/models.py:32-34 | deleting a genre keeps every constraint |
| Store.RemoveTitle | api_yamdb/reviews/models.py:56-60 | deleting a title removes exactly its reviews and the comments on them; other titles' reviews and all other rows are untouched |
| Store.RemoveTitleConsistent | api_yamdb/reviews/models.py:56-60 | deleting a title keeps every constraint and every score in range |
| Store.RemoveReview | api_yamdb/reviews/models.py:78-82 | deleting a review removes exactly the comments on it |
| Store.RemoveReviewConsistent | api_yamdb/reviews/models.py:78-82 | deleting a review keeps every constraint and every score in range |
| Store.RemoveCommentConsistent | api_yamdb/reviews/models.py:72-90 | deleting a comment keeps every constraint: no row refers to a comment |
| Store.Database.constructor | api_yamdb/reviews/models.py:8-90 | the empty database satisfies every constraint, with no score out of range and no invalid role |
| Store.Database.InsertUser | api_yamdb/users/models.py:18-28 | the insert succeeds exactly when the username is not `me` and neither username nor email is in use; it adds only that row under a fresh key, and a refusal changes nothing |
| Store.Database.SaveUser | api_yamdb/users/models.py:18-28 | saving a user row succeeds exactly when the row is admissible; the table is updated at that key or left as it was |
| Store.Database.DeleteUser | api_yamdb/reviews/models.py:42-77 | the tables become `RemoveUser` of the old ones, with every constraint kept |
| Store.Database.InsertCategory | api_yamdb/reviews/models.py:8-13 | the insert succeeds exactly when the slug is free, and adds only that row |
| Store.Database.InsertGenre | api_yamdb/reviews/models.py:16-21 | the insert succeeds exactly when the slug is free, and adds only that row |
| Store.Database.DeleteCategory | api_yamdb/reviews/models.py:28-31 | the tables become `RemoveCategory` of the old ones |
| Store.Database.DeleteGenre | api_yamdb/reviews/models.py:32-34 | the tables become `RemoveGenre` of the old ones |
| Store.Database.InsertTitle | api_yamdb/reviews/models.py:24-34 | the insert succeeds exactly when the category and genres are stored, and adds only that row |
| Store.Database.SaveTitle | api_yamdb/reviews/models.py:24-34 | the save succeeds exactly when the category and genres are stored |
| Store.Database.DeleteTitle | api_yamdb/reviews/models.py:56-60 | the tables become `RemoveTitle` of the old ones |
| Store.Database.InsertReview | api_yamdb/reviews/models.py:40-69 | the insert succeeds exactly when author and title are stored, the author has not reviewed the title, and the score fits the column |
| Store.Database.SaveReview | api_yamdb/reviews/models.py:40-69 | the save succeeds exactly when the row is admissible and the score fits the column |
| Store.Database.DeleteReview | api_yamdb/reviews/models.py:78-82 | the tables become `RemoveReview` of the old ones |
| Store.Database.InsertComment | api_yamdb/reviews/models.py:72-87 | the insert succeeds exactly when the author and review are stored, and adds only that row |
| Store.Database.SaveComment | api_yamdb/reviews/models.py:72-87 | the save succeeds exactly when the author and review are stored |
| Store.Database.DeleteComment | api_yamdb/reviews/models.py:72-90 | only the comment goes; nothing else changes |
| Serializers.Strip | api_yamdb/api/serializers.py:10-11 | the stripped value is empty exactly when the input is all whitespace; otherwise it is the input without its leading and trailing whitespace, and an input with none is kept |
| Serializers.StripIdempotent | api_yamdb/api/serializers.py:10-11 | stripping twice is stripping once |
| Serializers.CleanText | api_yamdb/api/serializers.py:10-11 | a text field is accepted exactly when its stripped value is non-blank (unless allowed), within `max_length` and free of U+0000, and the cleaned value is the stripped one |
| Serializers.RequiredText | api_yamdb/api/serializers.py:10-11 | a missing key is `Required`, a `null` is `NotNull`, otherwise the text is cleaned |
| Serializers.OptionalText | api_yamdb/api/serializers.py:35-39 | under a partial update a missing key is skipped, a given one is cleaned |
| Serializers.ValidateUsername | api_yamdb/api/serializers.py:13-17 | a username passes exactly when it is not `me` and not in use |
| Serializers.ValidateEmail | api_yamdb/api/serializers.py:19-23 | an email passes exactly when it is not in use |
| Serializers.ValidateSignUp | api_yamdb/api/serializers.py:9-23 | a sign-up is valid exactly when both keys are present, the stripped username is non-blank, at most 150 long, free of U+0000, not `me` and free, and the stripped email is non-blank, free of U+0000 and free; the errors name exactly the refused fields |
| Serializers.SignUpRefusesMe | api_yamdb/api/serializers.py:13-17 | the username `me`, even padded with whitespace, is refused |
| Serializers.SignUpRefusesMeWithLineSeparator | api_yamdb/api/serializers.py:13-17 | the username `me` followed by U+2028, which `str.strip` removes, strips to `me` and is refused |
| Serializers.SignUpRefusesNullCharacter | api_yamdb/api/serializers.py:10 | a username holding U+0000 is refused with the null-character error, although the field declares `validators=[]` |
| Serializers.SignUpRefusesTaken | api_yamdb/api/serializers.py:13-23 | a username or email a stored user has is refused |
| Serializers.SignUpCreateKeepsConstraints | api_yamdb/api/serializers.py:13-26 | the row `create` inserts after a valid sign-up keeps "no user named `me`", unique usernames and unique emails |
| Serializers.SignUpRow | api_yamdb/api/serializers.py:25-26 | the created row has the validated username and email and role `user` |
| Serializers.SignUpUpdate | api_yamdb/api/serializers.py:28-32 | `update` changes at most username and email; every other column, confirmation code and role included, is unchanged |
| Serializers.SecondSaveIsIdentity | api_yamdb/api/serializers.py:28-32 | the second save of a sign-up, whatever the token, writes back the created row unchanged, with an empty confirmation code |
| Serializers.PatchUsername | api_yamdb/api/serializers.py:35-45 | a patched username passes exactly when it cleans and no other user has it; `me` is not checked |
| Serializers.PatchEmail | api_yamdb/api/serializers.py:35-51 | a patched email passes exactly when it cleans and no other user has it |
| Serializers.PatchRole | api_yamdb/api/serializers.py:35-39 | a patched role passes exactly when it is missing or one of the choices |
| Serializers.ValidateUserPatch | api_yamdb/api/serializers.py:35-51 | a patch is accepted exactly when every field passes; the written row takes each given value (stripped, except `role`) for username, email, role, bio, first and last name, and keeps every absent one and every other column; an accepted patch keeps a valid role valid; a refusal reports every refused field |
| Serializers.PatchErrors | api_yamdb/api/serializers.py:35-51 | the error map has an entry exactly for each refused field, holding its reason |
| Serializers.UsersSerializerAcceptsMe | api_yamdb/api/serializers.py:41-45 | the user serializer accepts a rename to `me` |
| Serializers.PatchSaveFailsOnlyForMe | api_yamdb/api/serializers.py:35-51 | after the user serializer accepts a patch, the database refuses the row exactly when its username is `me` |
| Serializers.PatchWithoutRoleKeepsRole | api_yamdb/api/serializers.py:35-39 | a patch without `role` keeps the stored role |
| Serializers.CleanScore | api_yamdb/reviews/models.py:47-52 | a score passes exactly when it is given and in 1..10 |
| Serializers.ValidateReviewInput | api_yamdb/api/serializers.py:109-118 | review fields pass exactly when the stripped text is non-blank, at most 2000 long and free of U+0000 and the score is in 1..10; the error map has a text entry exactly when the text fails and a score entry exactly when the score fails, each holding that field's reason |
| Serializers.ValidateReview | api_yamdb/api/serializers.py:119-129 | a missing title is not found; a POST by an author who already reviewed the title is refused, and nothing else is |
| Serializers.DuplicatePostRefused | api_yamdb/api/serializers.py:119-129 | a second POST review of a title by its author is refused |
| Serializers.NonPostAccepted | api_yamdb/api/serializers.py:125 | a non-POST method passes whenever the title exists, reviewed or not |
| Serializers.AcceptedReviewAdmissible | api_yamdb/api/serializers.py:119-129 | a review `validate` accepted for a POST passes every database check |
| Serializers.ValidateCommentInput | api_yamdb/api/serializers.py:98-106 | a comment's text passes exactly when given, non-blank after stripping and free of U+0000 |
| Views.UsersPermissions | api_yamdb/api/views.py:63-69 | the self-service permission set is chosen exactly for the path `me` |
| Views.UsersObjectCheckNeverFaults | api_yamdb/api/views.py:63-69 | whoever passes the users view's permission set is authenticated, so `UsersPermission` never raises |
| Views.UsersPermissionsIff | api_yamdb/api/views.py:63-69 | on `me` every authenticated user passes; elsewhere exactly authenticated admins and superusers |
| Views.TitleSerializerFor | api_yamdb/api/views.py:109-112 | the read serializer is used exactly for list and retrieve |
| Views.ObtainToken | api_yamdb/api/views.py:43-53 | 400 when a key is missing or the code check fails; 404 when no user has the (non-null) username; a token only for the named user and a code the check accepts |
| Views.TokenOnlyForCheckedCode | api_yamdb/api/views.py:51-53 | a token is issued exactly when the user exists, the code is non-empty and the generator accepts it |
| Views.Signup | api_yamdb/api/views.py:26-40 | the answer is the validation result, 200 or 400; a refusal changes nothing; a success adds exactly the created row under a fresh key |
| Views.PatchTarget | api_yamdb/api/views.py:76-80 | the object of the users view is the requester on `me`, and otherwise the stored user of that name, which exists exactly when the name is in use |
| Views.UsersPartialUpdate | api_yamdb/api/views.py:63-88 | a denied view-level permission is 401/403; a `role` on `me` is 403 with role `user`; 404 exactly for a missing user; for a found target, a refused `UsersPermission` is 403, a refused patch is 400 with exactly the serializer's errors, and an accepted patch is 200 unless the new username is `me`, which is 500; 200 writes exactly the validated row of the target and never changes the role on `me`; every refusal changes nothing |
| Views.UsersDestroy | api_yamdb/api/views.py:94-99 | a denied view-level permission is 401/403; `me` is 405; 404 exactly for a missing user; a refused `UsersPermission` on a stored user is 403; 204 exactly for a permitted delete of a stored user, whose rows then go by the cascades; every refusal changes nothing |
| Views.CreateReview | api_yamdb/api/views.py:151-156 | anonymous is 401; bad fields are 400; a missing title is 404; a second review is 400; otherwise 201, storing only the review with the requester as author, the path title and the request time |
| Views.CreateComment | api_yamdb/api/views.py:169-172 | anonymous is 401; a blank text is 400; a missing review is 404; otherwise 201, storing only the comment with the requester as author and the path review |

## Left out

- Sending the confirmation mail, `make_token`, and issuing the `RefreshToken` are external services. The token generator's check is a function parameter, and the token `make_token` returns is a parameter of `Views.Signup`.
- The response body of `signup` (`serializer.data`) and the token string of `obtain_token` are rendering, not state. The model returns the validated data and the user key instead.
- The router, JSON parsing and rendering are not modelled. Request bodies are given as already-parsed fields of the expected JSON type. Non-string values and non-integer scores are not modelled.
- The authentication backend's settings are not part of this model. The 401/403 split assumes a backend that reports missing credentials as `NotAuthenticated`.
- Email format checking (`EmailField`) and the `UnicodeUsernameValidator` on usernames are not modelled: only blank, length and uniqueness are.
- Serializers.ValidateReviewInput reports one error per field, the first its validators raise, where the framework collects every message of a field. The same weakening holds for the other serializer functions. The set of refused fields is exact.
- The framework's validator against lone surrogate code points never refuses anything here: a Dafny `char` is a Unicode scalar value, so a string cannot hold a surrogate.
- Store.Database.InsertUser does not enforce the widths of the `varchar` columns (`max_length=254` on `email`, 15 on `role`, 150 on `username`). Whether a longer value is refused depends on the database backend: some refuse it, others store it. The sign-up email is the one value a serializer does not bound (`EmailField` without `max_length`), so on a backend that enforces the width, a sign-up with an email longer than 254 characters would fail at the insert. `Views.Signup` does not capture that failure.
- Store.Database.InsertReview bounds the score to 0..32767, the PostgreSQL `smallint` column with the `CHECK (score >= 0)` of a `PositiveSmallIntegerField`. SQLite enforces only the `>= 0` check, so there a score above 32767 would be stored. The handlers pass only scores in 1..10, so this is never reached from them.
- Store.TitleRating takes the floor of the mean. The database computes `Avg` in floating point and casts it to a small integer, and the rounding of that cast depends on the database. Only the 1..10 bound is stated.
- Filtering (`TitleFilter`, whose file is not part of this model), search and pagination are framework features and are not modelled.
- Concurrent requests are not modelled: two duplicate review posts racing past `validate` are stopped by the unique constraint, which `Store.Database.InsertReview` models as a refusal.
- The endpoints the generic viewsets provide beyond the ones above are not modelled: user create, list, retrieve and `PUT` (`update`, which on `me` only `UsersPermission` stops); title create, list, retrieve, update, partial update and delete; category and genre create, list and delete; review and comment list, update and destroy. Their permission classes are modelled. The database operations they would call are the `Store.Database` methods.
- The `CategorySerializer`, `GenreSerializer` and `TitleWriteSerializer` field validation is not modelled (only the serializer choice is). Slug resolution is not modelled either: the `SlugRelatedField` of `TitleWriteSerializer` answers an unknown slug with a 400 before any insert, and no member takes a slug. `Store.Database.InsertTitle` models only the database's foreign-key refusal of a category or genre key that is not stored.
- The `@action(url_path='me')` decorator on `get_object` only registers an extra route, and it is not modelled.
- `urls.py` and `admin.py` hold configuration only. The numeric path ids (`[0-9]+` in `urls.py`) are why keys are `nat`.
