/** The request handlers: each runs the framework's steps in their order
    (view-level permission checks, the handler's own branches, object lookup
    and object-level checks, validation, the database writes) and answers
    with a status code. */
module Views {
  import opened Wrappers
  import opened Users
  import opened Permissions
  import opened Store
  import opened Serializers

  const HttpOk: int := 200
  const HttpCreated: int := 201
  const HttpNoContent: int := 204
  const HttpBadRequest: int := 400
  const HttpUnauthorized: int := 401
  const HttpForbidden: int := 403
  const HttpNotFound: int := 404
  const HttpMethodNotAllowed: int := 405
  const HttpServerError: int := 500

  /** The answer to a refused permission check: `NotAuthenticated` (401) when
      no credentials came with the request, `PermissionDenied` (403) otherwise. */
  function DeniedStatus(r: Requester): int
  {
    if r.Anonymous? then HttpUnauthorized else HttpForbidden
  }

  /** `request.user` is the stored row of the user whose credentials came with the request. */
  ghost predicate Authentic(db: Database, r: Requester)
    reads db
  {
    r.Member? ==> r.id in db.tables.users && db.tables.users[r.id] == r.user
  }

  // ---- UsersViewSet.get_permissions ----

  /** The permission classes of the users view, besides `UsersPermission`:
      `IsAuthenticated` on the path `me`, `IsAdminOrSuperuser` elsewhere. */
  datatype UsersPermissionSet = SelfService | AdminArea

  function UsersPermissions(username: string): (p: UsersPermissionSet)
    ensures p == SelfService <==> username == ReservedUsername
  {
    if username == ReservedUsername then SelfService else AdminArea
  }

  /** The view-level check of the users view. `UsersPermission` keeps the
      framework's `has_permission`, which always grants. */
  predicate UsersHasPermission(p: UsersPermissionSet, r: Requester)
  {
    match p
    case SelfService => IsAuthenticatedHasPermission(r)
    case AdminArea => AdminOrSuperuserHasPermission(r)
  }

  /** Whoever passes the view-level check is authenticated, so the object-level
      `UsersPermission` check, which reads `is_admin`, never raises. */
  lemma UsersObjectCheckNeverFaults(username: string, r: Requester, role: Field<string>)
    requires UsersHasPermission(UsersPermissions(username), r)
    ensures r.Member? && UsersHasObjectPermission(r, role).Some?
  {
  }

  /** On the path `me` every authenticated user passes; elsewhere exactly
      authenticated admins and superusers do. */
  lemma UsersPermissionsIff(username: string, r: Requester)
    ensures UsersHasPermission(UsersPermissions(username), r) <==>
      r.Member? && (username == ReservedUsername || IsAdmin(r.user) || r.user.isSuperuser)
  {
  }

  // ---- TitlesViewSet.get_serializer_class ----

  /** The viewset action the router dispatched to. */
  datatype Action = List | Retrieve | Create | Update | PartialUpdate | Destroy | Metadata

  datatype TitleSerializer = TitleRead | TitleWrite

  /** Reads render titles with nested category and genres; every other action
      takes slugs. */
  function TitleSerializerFor(a: Action): (s: TitleSerializer)
    ensures s == TitleRead <==> a == List || a == Retrieve
  {
    if a == List || a == Retrieve then TitleRead else TitleWrite
  }

  // ---- obtain_token ----

  /** The answer of `obtain_token`: 200 with an access token for a user, 400 or 404. */
  datatype TokenResponse = AccessToken(user: UserId) | TokenBadRequest | TokenNotFound

  /** `default_token_generator.check_token(user, token)`: a missing or empty
      token is refused before `checkToken`, the generator's own test, is asked. */
  predicate CheckToken(checkToken: (User, string) -> bool, u: User, code: Field<string>)
  {
    code.Given? && code.value != "" && checkToken(u, code.value)
  }

  /** `obtain_token`: both keys must be present; the user is looked up by
      username (a `null` username matches no row); the code must pass the check. */
  function ObtainToken(users: map<UserId, User>, username: Field<string>, code: Field<string>,
                       checkToken: (User, string) -> bool): (r: TokenResponse)
    requires UsernamesUnique(users)
    ensures r == TokenNotFound <==>
      !username.Absent? && !code.Absent? && (username.Null? || !UsernameTaken(users, username.value))
    ensures r == TokenBadRequest <==>
      || username.Absent? || code.Absent?
      || (username.Given? && UsernameTaken(users, username.value) && !code.Absent?
          && !CheckToken(checkToken, users[FindByUsername(users, username.value).value], code))
    ensures r.AccessToken? ==>
      && r.user in users && username == Given(users[r.user].username)
      && CheckToken(checkToken, users[r.user], code)
  {
    if username.Absent? || code.Absent? then TokenBadRequest
    else
      match (if username.Given? then FindByUsername(users, username.value) else None)
      case None => TokenNotFound
      case Some(id) => if CheckToken(checkToken, users[id], code) then AccessToken(id) else TokenBadRequest
  }

  /** A token is issued only to the user named in the request and only for a
      code the generator accepts. */
  lemma TokenOnlyForCheckedCode(users: map<UserId, User>, name: string, code: string,
                                checkToken: (User, string) -> bool)
    requires UsernamesUnique(users)
    ensures ObtainToken(users, Given(name), Given(code), checkToken).AccessToken? <==>
      UsernameTaken(users, name) && code != "" && checkToken(users[FindByUsername(users, name).value], code)
  {
  }

  // ---- signup ----

  /** `signup`: validate; on success insert the row (`save()` calls `create`),
      look it up again, and `save(confirmation_code=token)`, which calls
      `update` and so writes the same row back. The mail is not modelled. */
  method Signup(db: Database, username: Field<string>, email: Field<string>, token: string)
    returns (status: int, body: Result<SignUpData, SignUpErrors>)
    requires db.Sound()
    modifies db
    ensures db.Sound()
    ensures body == ValidateSignUp(old(db.tables).users, username, email)
    ensures status == (if body.Success? then HttpOk else HttpBadRequest)
    ensures body.Failure? ==> db.tables == old(db.tables)
    ensures body.Success? ==>
      exists id: UserId | id !in old(db.tables).users ::
        db.tables == old(db.tables).(users := old(db.tables).users[id := SignUpRow(body.value)])
  {
    body := ValidateSignUp(db.tables.users, username, email);
    if body.Failure? {
      return HttpBadRequest, body;
    }
    var d := body.value;
    var instance := SignUpRow(d);
    assert instance.username != ReservedUsername;
    assert !UsernameTaken(db.tables.users, instance.username);
    assert !EmailTaken(db.tables.users, instance.email);
    var created := db.InsertUser(instance);
    if created.None? {
      assert false;
    }
    var id := created.value;
    FindByUsernameFinds(db.tables.users, id);
    var found := FindByUsername(db.tables.users, d.username);
    if found != Some(id) {
      assert false;
    }
    SecondSaveIsIdentity(d, token);
    RewriteAdmissible(db.tables.users, id);
    var ok := db.SaveUser(id, SignUpUpdate(instance, Some(d.username), Some(d.email), Some(token)));
    if !ok {
      assert false;
    }
    status := HttpOk;
  }

  // ---- UsersViewSet.partial_update ----

  /** The user `get_object` returns on the path `username`: the requester
      on `me`, otherwise the stored user of that name, if any. */
  function PatchTarget(users: map<UserId, User>, req: Requester, username: string): (r: Option<UserId>)
    requires UsernamesUnique(users)
    ensures username == ReservedUsername ==> r == (if req.Member? then Some(req.id) else None)
    ensures username != ReservedUsername ==> (r.Some? <==> UsernameTaken(users, username))
    ensures username != ReservedUsername && r.Some? ==> r.value in users && users[r.value].username == username
  {
    if username == ReservedUsername then (if req.Member? then Some(req.id) else None)
    else FindByUsername(users, username)
  }

  /** What the users view answers with besides a status. */
  datatype UserBody = NoBody | ForcedRole(role: string) | UserErrors(errors: map<UserField, FieldError>) | UserShown(user: User)

  /** `PATCH /users/<username>/`: the view-level permissions; on `me` a
      non-null `role` is refused with `{'role': 'user'}`; `get_object` (the
      requester on `me`, the named user elsewhere, 404 if there is none) with the
      object-level `UsersPermission`; the serializer; `save()`, where the check
      constraint refuses the username `me` (500). */
  method UsersPartialUpdate(db: Database, req: Requester, username: string, p: UserPatch)
    returns (status: int, body: UserBody)
    requires db.Sound() && Authentic(db, req)
    modifies db
    ensures db.Sound()
    ensures status != HttpOk ==> db.tables == old(db.tables)
    ensures !UsersHasPermission(UsersPermissions(username), req) ==> status == DeniedStatus(req)
    ensures UsersHasPermission(UsersPermissions(username), req) && username == ReservedUsername && p.role.Get().Some? ==>
      status == HttpForbidden && body == ForcedRole(RoleUser)
    ensures status == HttpNotFound <==>
      UsersHasPermission(UsersPermissions(username), req) && username != ReservedUsername
      && !UsernameTaken(old(db.tables).users, username)
    ensures status == HttpBadRequest ==> body.UserErrors?
    ensures status == HttpServerError ==> p.username.Given? && Strip(p.username.value) == ReservedUsername
    ensures status == HttpOk ==>
      && body.UserShown? && body.user.username != ReservedUsername
      && exists id: UserId | id in old(db.tables).users ::
           && (if username == ReservedUsername then id == req.id else old(db.tables).users[id].username == username)
           && ValidateUserPatch(old(db.tables).users, id, old(db.tables).users[id], p).Success?
           && body == UserShown(ValidateUserPatch(old(db.tables).users, id, old(db.tables).users[id], p).value)
           && db.tables == old(db.tables).(users := old(db.tables).users[id := body.user])
    ensures status == HttpOk && username == ReservedUsername ==> body.user.role == req.user.role
    ensures UsersHasPermission(UsersPermissions(username), req) && !(username == ReservedUsername && p.role.Get().Some?)
            && PatchTarget(old(db.tables).users, req, username).Some? ==>
      var users := old(db.tables).users;
      var id := PatchTarget(users, req, username).value;
      var v := ValidateUserPatch(users, id, users[id], p);
      && (!UsersHasObjectPermission(req, p.role).value ==> status == HttpForbidden && body == NoBody)
      && (UsersHasObjectPermission(req, p.role).value && v.Failure? ==>
            status == HttpBadRequest && body == UserErrors(v.error))
      && (UsersHasObjectPermission(req, p.role).value && v.Success? ==>
            status == (if v.value.username != ReservedUsername then HttpOk else HttpServerError))
  {
    if !UsersHasPermission(UsersPermissions(username), req) {
      return DeniedStatus(req), NoBody;
    }
    if username == ReservedUsername && p.role.Get().Some? {
      return HttpForbidden, ForcedRole(RoleUser);
    }
    var id: UserId;
    if username == ReservedUsername {
      id := req.id;
    } else {
      var found := FindByUsername(db.tables.users, username);
      if found.None? {
        return HttpNotFound, NoBody;
      }
      id := found.value;
    }
    UsersObjectCheckNeverFaults(username, req, p.role);
    if !UsersHasObjectPermission(req, p.role).value {
      return HttpForbidden, NoBody;
    }
    var v := ValidateUserPatch(db.tables.users, id, db.tables.users[id], p);
    if v.Failure? {
      return HttpBadRequest, UserErrors(v.error);
    }
    PatchSaveFailsOnlyForMe(db.tables.users, id, p);
    ghost var before := db.tables;
    var ok := db.SaveUser(id, v.value);
    if !ok {
      return HttpServerError, NoBody;
    }
    status, body := HttpOk, UserShown(v.value);
    assert db.tables == before.(users := before.users[id := body.user]);
  }

  // ---- UsersViewSet.destroy ----

  /** `DELETE /users/<username>/`: the view-level permissions; `me` is refused
      with 405; `get_object` and `UsersPermission` (on the request's `role`);
      the deletion with its cascades. */
  method UsersDestroy(db: Database, req: Requester, username: string, role: Field<string>) returns (status: int)
    requires db.Sound() && Authentic(db, req)
    modifies db
    ensures db.Sound()
    ensures status != HttpNoContent ==> db.tables == old(db.tables)
    ensures !UsersHasPermission(UsersPermissions(username), req) ==> status == DeniedStatus(req)
    ensures UsersHasPermission(UsersPermissions(username), req) && username == ReservedUsername ==>
      status == HttpMethodNotAllowed
    ensures status == HttpNotFound <==>
      UsersHasPermission(UsersPermissions(username), req) && username != ReservedUsername
      && !UsernameTaken(old(db.tables).users, username)
    ensures status == HttpNoContent <==>
      && UsersHasPermission(UsersPermissions(username), req) && username != ReservedUsername
      && UsernameTaken(old(db.tables).users, username) && (IsAdmin(req.user) || !role.Given?)
    ensures UsersHasPermission(UsersPermissions(username), req) && username != ReservedUsername
            && UsernameTaken(old(db.tables).users, username) && !(IsAdmin(req.user) || !role.Given?) ==>
      status == HttpForbidden
    ensures status == HttpNoContent ==>
      db.tables == RemoveUser(old(db.tables), FindByUsername(old(db.tables).users, username).value)
  {
    if !UsersHasPermission(UsersPermissions(username), req) {
      return DeniedStatus(req);
    }
    if username == ReservedUsername {
      return HttpMethodNotAllowed;
    }
    var found := FindByUsername(db.tables.users, username);
    if found.None? {
      return HttpNotFound;
    }
    if !UsersHasObjectPermission(req, role).value {
      return HttpForbidden;
    }
    db.DeleteUser(found.value);
    status := HttpNoContent;
  }

  // ---- ReviewViewSet.perform_create ----

  datatype ReviewBody = ReviewNoBody | ReviewErrors(errors: map<ReviewField, FieldError>) | ReviewDuplicate | ReviewCreated(id: ReviewId, review: Review)

  /** `POST /titles/<title_id>/reviews/`: the view-level permissions; the
      serializer's fields, then its `validate` (404 for a missing title, 400 for
      a second review); `perform_create`, whose own duplicate check would raise
      but never fires after `validate`; the insert, stamped with `now`. */
  method CreateReview(db: Database, req: Requester, titleId: TitleId, input: ReviewInput, now: int)
    returns (status: int, body: ReviewBody)
    requires db.Sound() && Authentic(db, req)
    modifies db
    ensures db.Sound()
    ensures status != HttpCreated ==> db.tables == old(db.tables)
    ensures req.Anonymous? ==> status == HttpUnauthorized
    ensures req.Member? && ValidateReviewInput(input).Failure? ==>
      status == HttpBadRequest && body == ReviewErrors(ValidateReviewInput(input).error)
    ensures req.Member? && ValidateReviewInput(input).Success? && titleId !in old(db.tables).titles ==>
      status == HttpNotFound
    ensures req.Member? && ValidateReviewInput(input).Success? && titleId in old(db.tables).titles
            && ReviewExists(old(db.tables).reviews, req.id, titleId) ==>
      status == HttpBadRequest && body == ReviewDuplicate
    ensures status == HttpCreated <==>
      req.Member? && ValidateReviewInput(input).Success? && titleId in old(db.tables).titles
      && !ReviewExists(old(db.tables).reviews, req.id, titleId)
    ensures status == HttpCreated ==>
      && body.ReviewCreated? && body.id !in old(db.tables).reviews
      && body.review == Review(Strip(input.text.value), req.id, input.score.value, now, titleId)
      && db.tables == old(db.tables).(reviews := old(db.tables).reviews[body.id := body.review])
  {
    if !(ReviewCommentHasPermission(POST, req) && IsAuthenticatedOrReadOnlyHasPermission(POST, req)) {
      return DeniedStatus(req), ReviewNoBody;
    }
    var fields := ValidateReviewInput(input);
    if fields.Failure? {
      return HttpBadRequest, ReviewErrors(fields.error);
    }
    match ValidateReview(db.tables, req.id, titleId, POST)
    case TitleNotFound =>
      return HttpNotFound, ReviewNoBody;
    case AlreadyReviewed =>
      return HttpBadRequest, ReviewDuplicate;
    case ReviewAccepted =>
    if ReviewExists(db.tables.reviews, req.id, titleId) {
      assert false;
    }
    var rv := Review(fields.value.0, req.id, fields.value.1, now, titleId);
    AcceptedReviewAdmissible(db.tables, db.nextReview, rv);
    PutScoreIff(db.tables.reviews, db.nextReview, rv);
    var id := db.InsertReview(rv);
    if id.None? {
      assert false;
    }
    status, body := HttpCreated, ReviewCreated(id.value, rv);
  }

  // ---- CommentViewSet.perform_create ----

  datatype CommentBody = CommentNoBody | CommentError(error: FieldError) | CommentCreated(id: CommentId, comment: Comment)

  /** `POST /titles/<title_id>/reviews/<review_id>/comments/`: the view-level
      permission; the serializer; the review is looked up by `review_id` alone,
      so `title_id` plays no part; the insert, stamped with `now`. */
  method CreateComment(db: Database, req: Requester, titleId: TitleId, reviewId: ReviewId, text: Field<string>, now: int)
    returns (status: int, body: CommentBody)
    requires db.Sound() && Authentic(db, req)
    modifies db
    ensures db.Sound()
    ensures status != HttpCreated ==> db.tables == old(db.tables)
    ensures req.Anonymous? ==> status == HttpUnauthorized
    ensures req.Member? && ValidateCommentInput(text).Failure? ==>
      status == HttpBadRequest && body == CommentError(ValidateCommentInput(text).error)
    ensures req.Member? && ValidateCommentInput(text).Success? && reviewId !in old(db.tables).reviews ==>
      status == HttpNotFound
    ensures status == HttpCreated <==>
      req.Member? && ValidateCommentInput(text).Success? && reviewId in old(db.tables).reviews
    ensures status == HttpCreated ==>
      && body.CommentCreated? && body.id !in old(db.tables).comments
      && body.comment == Comment(req.id, reviewId, Strip(text.value), now)
      && db.tables == old(db.tables).(comments := old(db.tables).comments[body.id := body.comment])
  {
    if !ReviewCommentHasPermission(POST, req) {
      return DeniedStatus(req), CommentNoBody;
    }
    var v := ValidateCommentInput(text);
    if v.Failure? {
      return HttpBadRequest, CommentError(v.error);
    }
    if reviewId !in db.tables.reviews {
      return HttpNotFound, CommentNoBody;
    }
    var c := Comment(req.id, reviewId, v.value, now);
    var id := db.InsertComment(c);
    if id.None? {
      assert false;
    }
    status, body := HttpCreated, CommentCreated(id.value, c);
  }
}
