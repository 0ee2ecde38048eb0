/** The `User` model: its role choices, the role properties, and the table
    constraints the database enforces on the user table. */
module Users {
  import opened Wrappers

  type UserId = nat

  const RoleUser: string := "user"
  const RoleModerator: string := "moderator"
  const RoleAdmin: string := "admin"
  /** The `CHOICES` of the `role` field, in declaration order. */
  const RoleChoices: seq<string> := [RoleUser, RoleModerator, RoleAdmin]
  const DefaultRole: string := RoleUser
  /** The username the `username_not_me` check constraint forbids. */
  const ReservedUsername: string := "me"
  const EmailMaxLength: nat := 254
  /** `AbstractUser.username` is declared with `max_length=150`. */
  const UsernameMaxLength: nat := 150
  /** `AbstractUser.first_name` and `last_name` are declared with `max_length=150`. */
  const NameMaxLength: nat := 150

  /** A row of the user table. `isStaff` and `isSuperuser` are the flags
      inherited from Django's `AbstractUser`; the password and dates are not modelled. */
  datatype User = User(
    username: string,
    email: string,
    role: string,
    bio: string,
    firstName: string,
    lastName: string,
    confirmationCode: string,
    isStaff: bool,
    isSuperuser: bool)

  predicate IsUser(u: User) { u.role == RoleUser }
  predicate IsAdmin(u: User) { u.role == RoleAdmin }
  predicate IsModerator(u: User) { u.role == RoleModerator }

  /** The role is one of the declared choices. */
  predicate ValidRole(role: string) { role in RoleChoices }

  /** The row `User.objects.create(username=..., email=...)` inserts: every
      other column takes its declared default. */
  function NewUser(username: string, email: string): (u: User)
    ensures u.username == username && u.email == email
    ensures IsUser(u) && ValidRole(u.role)
    ensures u.confirmationCode == "" && u.bio == "" && u.firstName == "" && u.lastName == ""
    ensures !u.isStaff && !u.isSuperuser
  {
    User(username, email, DefaultRole, "", "", "", "", false, false)
  }

  /** The role properties are mutually exclusive. */
  lemma RolePropertiesExclusive(u: User)
    ensures !(IsUser(u) && IsAdmin(u))
    ensures !(IsUser(u) && IsModerator(u))
    ensures !(IsAdmin(u) && IsModerator(u))
  {
  }

  /** Exactly one role property holds if and only if the role is a declared choice. */
  lemma ExactlyOneRoleIffValid(u: User)
    ensures ValidRole(u.role) <==> (IsUser(u) || IsAdmin(u) || IsModerator(u))
  {
    RolePropertiesExclusive(u);
  }

  predicate UsernameTaken(users: map<UserId, User>, name: string)
  {
    exists id | id in users :: users[id].username == name
  }

  predicate EmailTaken(users: map<UserId, User>, email: string)
  {
    exists id | id in users :: users[id].email == email
  }

  /** The `username_not_me` check constraint. */
  predicate NoUserNamedMe(users: map<UserId, User>)
  {
    forall id | id in users :: users[id].username != ReservedUsername
  }

  /** `email` is declared `unique=True`. */
  predicate EmailsUnique(users: map<UserId, User>)
  {
    forall a, b {:trigger users[a].email, users[b].email} | a in users && b in users && a != b ::
      users[a].email != users[b].email
  }

  /** `AbstractUser.username` is declared unique. */
  predicate UsernamesUnique(users: map<UserId, User>)
  {
    forall a, b {:trigger users[a].username, users[b].username} | a in users && b in users && a != b ::
      users[a].username != users[b].username
  }

  /** Every constraint the database enforces on the user table. */
  predicate UserConstraints(users: map<UserId, User>)
  {
    NoUserNamedMe(users) && EmailsUnique(users) && UsernamesUnique(users)
  }

  /** The constraints of the table with row `id` replaced by `u`, as the
      database checks them when that row is written: `u` against every other row. */
  predicate RowAdmissible(users: map<UserId, User>, id: UserId, u: User)
  {
    && u.username != ReservedUsername
    && (forall other | other in users && other != id :: users[other].username != u.username)
    && (forall other | other in users && other != id :: users[other].email != u.email)
  }

  /** Writing an admissible row keeps every table constraint, and a row that is
      not admissible breaks one: the check the database makes is exact. */
  lemma {:induction false} RowAdmissibleIff(users: map<UserId, User>, id: UserId, u: User)
    requires UserConstraints(users)
    ensures RowAdmissible(users, id, u) <==> UserConstraints(users[id := u])
  {
    var after := users[id := u];
    if UserConstraints(after) {
      assert after[id] == u;
      forall other | other in users && other != id
        ensures users[other].username != u.username && users[other].email != u.email
      {
        assert other in after && after[other] == users[other];
      }
    }
  }

  /** For a new key, admissibility is that the username is not `me` and
      neither the username nor the email is in use. */
  lemma FreshRowAdmissible(users: map<UserId, User>, id: UserId, u: User)
    requires id !in users
    ensures RowAdmissible(users, id, u) <==>
      u.username != ReservedUsername && !UsernameTaken(users, u.username) && !EmailTaken(users, u.email)
  {
    if UsernameTaken(users, u.username) {
      var other :| other in users && users[other].username == u.username;
    }
    if EmailTaken(users, u.email) {
      var other :| other in users && users[other].email == u.email;
    }
  }

  /** Writing a stored row back unchanged is always admissible. */
  lemma RewriteAdmissible(users: map<UserId, User>, id: UserId)
    requires UserConstraints(users) && id in users
    ensures RowAdmissible(users, id, users[id])
  {
    forall other | other in users && other != id
      ensures users[other].username != users[id].username && users[other].email != users[id].email
    {
    }
  }

  /** Every stored role is one of the declared choices: `role` is a
      `CharField` with `choices`, which every serializer that writes it enforces. */
  predicate RolesValid(users: map<UserId, User>)
  {
    forall id | id in users :: ValidRole(users[id].role)
  }

  /** In a table whose roles are valid, every stored user has exactly one of
      the three role properties. */
  lemma StoredUserHasOneRole(users: map<UserId, User>, id: UserId)
    requires RolesValid(users) && id in users
    ensures IsUser(users[id]) || IsAdmin(users[id]) || IsModerator(users[id])
    ensures !(IsUser(users[id]) && IsAdmin(users[id]))
    ensures !(IsUser(users[id]) && IsModerator(users[id]))
    ensures !(IsAdmin(users[id]) && IsModerator(users[id]))
  {
    ExactlyOneRoleIffValid(users[id]);
    RolePropertiesExclusive(users[id]);
  }

  /** Looking a user up by username, as `get_object_or_404(User, username=name)`
      does: there is at most one such row. */
  function FindByUsername(users: map<UserId, User>, name: string): (r: Option<UserId>)
    requires UsernamesUnique(users)
    ensures r.Some? <==> UsernameTaken(users, name)
    ensures r.Some? ==> r.value in users && users[r.value].username == name
  {
    if UsernameTaken(users, name) then
      var id :| id in users && users[id].username == name; Some(id)
    else None
  }

  /** Looking up a stored user's own username finds that user. */
  lemma FindByUsernameFinds(users: map<UserId, User>, id: UserId)
    requires UsernamesUnique(users) && id in users
    ensures FindByUsername(users, users[id].username) == Some(id)
  {
    var r := FindByUsername(users, users[id].username);
    assert users[r.value].username == users[id].username;
  }
}
