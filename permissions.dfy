/** The permission classes of the API as total predicates over the request
    method, the requesting user and, for object checks, the object's author. */
module Permissions {
  import opened Wrappers
  import opened Users

  datatype Method = GET | HEAD | OPTIONS | POST | PUT | PATCH | DELETE

  /** Django REST framework's `SAFE_METHODS`. */
  predicate IsSafe(m: Method)
  {
    m == GET || m == HEAD || m == OPTIONS
  }

  /** `request.user`: Django's `AnonymousUser`, or a stored user with its key.
      Both are truthy objects, so the source's `request.user and ...` tests
      reduce to the `is_authenticated` test that follows them. */
  datatype Requester = Anonymous | Member(id: UserId, user: User)

  /** `is_authenticated` is false exactly for `AnonymousUser`. */
  predicate IsAuthenticated(r: Requester)
  {
    r.Member?
  }

  /** The framework's `IsAuthenticated.has_permission`. */
  predicate IsAuthenticatedHasPermission(r: Requester)
  {
    IsAuthenticated(r)
  }

  /** The framework's `IsAuthenticatedOrReadOnly.has_permission`. */
  predicate IsAuthenticatedOrReadOnlyHasPermission(m: Method, r: Requester)
  {
    IsSafe(m) || IsAuthenticated(r)
  }

  /** `UsersPermission.has_object_permission`: `role` is `request.data.get('role')`.
      `AnonymousUser` has no `is_admin` attribute, so for it the expression
      raises instead of answering: that is the `None` result. */
  function UsersHasObjectPermission(r: Requester, role: Field<string>): Option<bool>
  {
    match r
    case Anonymous => None
    case Member(_, u) => Some(IsAdmin(u) || role.Get().None?)
  }

  /** `ReviewCommentPermission.has_permission`. */
  predicate ReviewCommentHasPermission(m: Method, r: Requester)
  {
    IsSafe(m) || IsAuthenticated(r)
  }

  /** `ReviewCommentPermission.has_object_permission` for an object written by `author`. */
  predicate ReviewCommentHasObjectPermission(m: Method, r: Requester, author: UserId)
  {
    || (IsAuthenticated(r)
        && (|| r.user.isStaff
            || IsAdmin(r.user)
            || IsModerator(r.user)
            || author == r.id
            || (m == POST && IsAuthenticated(r))))
    || IsSafe(m)
  }

  /** `IsAdminUserOrReadOnly.has_permission`. */
  predicate AdminOrReadOnlyHasPermission(m: Method, r: Requester)
  {
    IsSafe(m) || (IsAuthenticated(r) && IsAdmin(r.user))
  }

  /** `IsAdminOrSuperuser.has_permission`; it does not look at the method at all. */
  predicate AdminOrSuperuserHasPermission(r: Requester)
  {
    IsAuthenticated(r) && (IsAdmin(r.user) || r.user.isSuperuser)
  }

  /** A requester whose status lets them edit or delete anyone's review or comment. */
  predicate Privileged(r: Requester)
  {
    r.Member? && (r.user.isStaff || IsAdmin(r.user) || IsModerator(r.user))
  }

  /** The review and comment policy stated once, without the source's redundant
      clauses: reading is open; any other method needs an authenticated requester
      who is creating, owns the object, or is privileged. */
  predicate ReviewCommentPolicy(m: Method, r: Requester, author: UserId)
  {
    IsSafe(m) || (IsAuthenticated(r) && (m == POST || Privileged(r) || author == r.id))
  }

  /** `UsersPermission` grants object access exactly when the requester is an
      admin or the request carries no `role`, and it fails only for anonymous requesters. */
  lemma UsersObjectPermissionIff(r: Requester, role: Field<string>)
    ensures UsersHasObjectPermission(r, role).None? <==> r.Anonymous?
    ensures r.Member? ==>
      (UsersHasObjectPermission(r, role).value <==> IsAdmin(r.user) || !role.Given?)
  {
  }

  /** A safe method passes both review/comment checks, for anonymous requesters too. */
  lemma ReviewCommentSafeAlwaysAllowed(m: Method, r: Requester, author: UserId)
    requires IsSafe(m)
    ensures ReviewCommentHasPermission(m, r)
    ensures ReviewCommentHasObjectPermission(m, r, author)
  {
  }

  /** An unsafe method passes the view-level review/comment check exactly when
      the requester is authenticated. */
  lemma ReviewCommentWriteNeedsAuthentication(m: Method, r: Requester)
    requires !IsSafe(m)
    ensures ReviewCommentHasPermission(m, r) <==> IsAuthenticated(r)
  {
  }

  /** The object-level review/comment check is the policy above, for every input:
      the trailing `request.method == 'POST' and is_authenticated` clause adds
      nothing beyond "POST by an authenticated requester". */
  lemma ReviewCommentObjectMatchesPolicy(m: Method, r: Requester, author: UserId)
    ensures ReviewCommentHasObjectPermission(m, r, author) <==> ReviewCommentPolicy(m, r, author)
  {
  }

  /** A plain user who is not the author may not change or delete the object. */
  lemma PlainUserCannotEditOthers(m: Method, r: Requester, author: UserId)
    requires m == PUT || m == PATCH || m == DELETE
    requires r.Member? && IsUser(r.user) && !r.user.isStaff && author != r.id
    ensures !ReviewCommentHasObjectPermission(m, r, author)
  {
  }

  /** `IsAdminUserOrReadOnly` lets an unsafe method through exactly for an
      authenticated admin. */
  lemma AdminOrReadOnlyUnsafeIff(m: Method, r: Requester)
    requires !IsSafe(m)
    ensures AdminOrReadOnlyHasPermission(m, r) <==> IsAuthenticated(r) && IsAdmin(r.user)
  {
  }

  /** Being staff or superuser does not help without the `admin` role. */
  lemma SuperuserWithoutAdminRoleIsReadOnly(m: Method, r: Requester)
    requires !IsSafe(m)
    requires r.Member? && !IsAdmin(r.user)
    ensures !AdminOrReadOnlyHasPermission(m, r)
  {
  }

  /** `IsAdminOrSuperuser` admits exactly authenticated admins and superusers,
      whatever the method; anonymous requesters are refused even for reads. */
  lemma AdminOrSuperuserIff(r: Requester)
    ensures AdminOrSuperuserHasPermission(r) <==> r.Member? && (IsAdmin(r.user) || r.user.isSuperuser)
    ensures r.Anonymous? ==> !AdminOrSuperuserHasPermission(r)
  {
  }
}
