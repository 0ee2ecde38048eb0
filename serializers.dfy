/** The request-body validation of the API: the framework's `CharField`
    cleaning, the sign-up serializer with its two validators, the user
    serializer as it actually behaves, and the review and comment serializers. */
module Serializers {
  import opened Wrappers
  import opened Users
  import opened Store
  import opened Permissions

  /** Python's `str.isspace`: the ASCII controls 9 to 13 and 28 to 31, the
      space, NEL, the no-break space, the other space separators (U+1680,
      U+2000 to U+200A, U+202F, U+205F, U+3000) and the line and paragraph
      separators U+2028 and U+2029. */
  predicate IsSpace(c: char)
  {
    var n := c as int;
    (9 <= n <= 13) || (28 <= n <= 32) || n == 0x85 || n == 0xA0 || n == 0x1680
    || (0x2000 <= n <= 0x200A) || n == 0x2028 || n == 0x2029 || n == 0x202F
    || n == 0x205F || n == 0x3000
  }

  /** The number of whitespace characters `s.lstrip()` removes. */
  function LeadingSpaces(s: string): (n: nat)
    ensures n <= |s|
    ensures forall k :: 0 <= k < n ==> IsSpace(s[k])
    ensures n < |s| ==> !IsSpace(s[n])
  {
    if s == [] || !IsSpace(s[0]) then 0
    else
      var n := 1 + LeadingSpaces(s[1..]);
      assert forall k :: 1 <= k < |s| ==> s[k] == s[1..][k - 1];
      n
  }

  /** The number of whitespace characters `s.rstrip()` removes. */
  function TrailingSpaces(s: string): (n: nat)
    ensures n <= |s|
    ensures forall k :: |s| - n <= k < |s| ==> IsSpace(s[k])
    ensures n < |s| ==> !IsSpace(s[|s| - 1 - n])
  {
    if s == [] || !IsSpace(s[|s| - 1]) then 0
    else
      var n := 1 + TrailingSpaces(s[..|s| - 1]);
      assert forall k :: 0 <= k < |s| - 1 ==> s[k] == s[..|s| - 1][k];
      n
  }

  /** `s.strip()`, which `CharField` applies to every value (`trim_whitespace`):
      `s` without its leading and trailing whitespace. */
  function Strip(s: string): (r: string)
    ensures r == [] <==> forall k :: 0 <= k < |s| ==> IsSpace(s[k])
    ensures r != [] ==> !IsSpace(r[0]) && !IsSpace(r[|r| - 1])
    ensures r != [] ==> r == s[LeadingSpaces(s)..|s| - TrailingSpaces(s)]
    ensures (s == [] || (!IsSpace(s[0]) && !IsSpace(s[|s| - 1]))) ==> r == s
  {
    var lead := LeadingSpaces(s);
    if lead == |s| then []
    else
      var trail := TrailingSpaces(s);
      assert lead < |s| - trail;
      s[lead..|s| - trail]
  }

  /** Stripping twice is stripping once. */
  lemma StripIdempotent(s: string)
    ensures Strip(Strip(s)) == Strip(s)
  {
  }

  /** Why a field of a request body is refused. */
  datatype FieldError =
    | Required        // the key is missing
    | NotNull         // the key is present with `null`
    | Blank           // the value is empty once whitespace is stripped
    | TooLong         // the stripped value exceeds `max_length`
    | NotUnique       // a model field's `UniqueValidator`
    | Invalid         // a serializer's own `validate_<field>` method
    | InvalidChoice   // a value outside a `ChoiceField`'s choices
    | OutOfRange      // an integer outside `min_value`..`max_value`
    | NullCharacter   // `ProhibitNullCharactersValidator`, which every `CharField` carries

  /** `CharField` on a present, non-null value: strip it, then refuse it if it
      is blank (unless blanks are allowed), longer than `maxLength`, or holds
      the character U+0000. The framework appends the null-character validator
      to every `CharField`, so `validators=[]` does not remove it. */
  function CleanText(s: string, allowBlank: bool, maxLength: Option<nat>): (r: Result<string, FieldError>)
    ensures r.Success? <==>
      && (allowBlank || Strip(s) != [])
      && (maxLength.None? || |Strip(s)| <= maxLength.value)
      && '\0' !in Strip(s)
    ensures r.Success? ==> r.value == Strip(s)
    ensures r.Failure? ==> (r.error == Blank <==> !allowBlank && Strip(s) == [])
    ensures r.Failure? ==> r.error == Blank || r.error == TooLong || r.error == NullCharacter
  {
    var v := Strip(s);
    if v == [] && !allowBlank then Failure(Blank)
    else if maxLength.Some? && |v| > maxLength.value then Failure(TooLong)
    else if '\0' in v then Failure(NullCharacter)
    else Success(v)
  }

  /** A required `CharField` (`required=True`, `allow_null=False`). */
  function RequiredText(f: Field<string>, allowBlank: bool, maxLength: Option<nat>): (r: Result<string, FieldError>)
    ensures f.Absent? ==> r == Failure(Required)
    ensures f.Null? ==> r == Failure(NotNull)
    ensures f.Given? ==> r == CleanText(f.value, allowBlank, maxLength)
  {
    match f
    case Absent => Failure(Required)
    case Null => Failure(NotNull)
    case Given(s) => CleanText(s, allowBlank, maxLength)
  }

  /** A `CharField` under a partial update: a missing key is skipped (`None`). */
  function OptionalText(f: Field<string>, allowBlank: bool, maxLength: Option<nat>): (r: Result<Option<string>, FieldError>)
    ensures r.Success? <==> f.Absent? || (f.Given? && CleanText(f.value, allowBlank, maxLength).Success?)
    ensures r.Success? ==> (r.value.Some? <==> f.Given?)
    ensures r.Success? && f.Given? ==> r.value.value == Strip(f.value)
  {
    match f
    case Absent => Success(None)
    case Null => Failure(NotNull)
    case Given(s) =>
      match CleanText(s, allowBlank, maxLength)
      case Success(v) => Success(Some(v))
      case Failure(e) => Failure(e)
  }

  // ---- SignUpSerializer ----

  /** The validated data of a sign-up: the stripped username and email. */
  datatype SignUpData = SignUpData(username: string, email: string)

  /** The error lists of a refused sign-up, one entry per refused field. */
  datatype SignUpErrors = SignUpErrors(username: Option<FieldError>, email: Option<FieldError>)

  /** `validate_username`: the name `me` and a name already in use are refused. */
  function ValidateUsername(users: map<UserId, User>, name: string): (r: Result<string, FieldError>)
    ensures r.Success? <==> name != ReservedUsername && !UsernameTaken(users, name)
    ensures r.Success? ==> r.value == name
    ensures r.Failure? ==> r.error == Invalid
  {
    if name == ReservedUsername || UsernameTaken(users, name) then Failure(Invalid) else Success(name)
  }

  /** `validate_email`: an email already in use is refused. */
  function ValidateEmail(users: map<UserId, User>, email: string): (r: Result<string, FieldError>)
    ensures r.Success? <==> !EmailTaken(users, email)
    ensures r.Success? ==> r.value == email
    ensures r.Failure? ==> r.error == Invalid
  {
    if EmailTaken(users, email) then Failure(Invalid) else Success(email)
  }

  /** The `username` field: `CharField(max_length=150)`, then `validate_username`. */
  function SignUpUsername(users: map<UserId, User>, f: Field<string>): Result<string, FieldError>
  {
    match RequiredText(f, false, Some(UsernameMaxLength))
    case Failure(e) => Failure(e)
    case Success(v) => ValidateUsername(users, v)
  }

  /** The `email` field: `EmailField()`, then `validate_email`. */
  function SignUpEmail(users: map<UserId, User>, f: Field<string>): Result<string, FieldError>
  {
    match RequiredText(f, false, None)
    case Failure(e) => Failure(e)
    case Success(v) => ValidateEmail(users, v)
  }

  /** `SignUpSerializer(data=...).is_valid()`: both fields are validated and
      every refused field is reported. */
  function ValidateSignUp(users: map<UserId, User>, username: Field<string>, email: Field<string>): (r: Result<SignUpData, SignUpErrors>)
    ensures r.Success? <==>
      && username.Given? && email.Given?
      && Strip(username.value) != [] && |Strip(username.value)| <= UsernameMaxLength && '\0' !in Strip(username.value)
      && Strip(username.value) != ReservedUsername && !UsernameTaken(users, Strip(username.value))
      && Strip(email.value) != [] && '\0' !in Strip(email.value) && !EmailTaken(users, Strip(email.value))
    ensures r.Success? ==> r.value == SignUpData(Strip(username.value), Strip(email.value))
    ensures r.Failure? ==> (r.error.username.Some? <==> SignUpUsername(users, username).Failure?)
    ensures r.Failure? ==> (r.error.email.Some? <==> SignUpEmail(users, email).Failure?)
  {
    var u := SignUpUsername(users, username);
    var e := SignUpEmail(users, email);
    if u.Success? && e.Success? then Success(SignUpData(u.value, e.value))
    else Failure(SignUpErrors(
      if u.Failure? then Some(u.error) else None,
      if e.Failure? then Some(e.error) else None))
  }

  /** The username `me`, even padded with whitespace, never signs up. */
  lemma SignUpRefusesMe(users: map<UserId, User>, username: string, email: Field<string>)
    requires Strip(username) == ReservedUsername
    ensures ValidateSignUp(users, Given(username), email).Failure?
    ensures ValidateSignUp(users, Given(username), email).error.username == Some(Invalid)
  {
  }

  /** `me` followed by the line separator U+2028 strips to `me` and is refused. */
  lemma SignUpRefusesMeWithLineSeparator(users: map<UserId, User>, email: Field<string>)
    ensures Strip("me\U{2028}") == ReservedUsername
    ensures ValidateSignUp(users, Given("me\U{2028}"), email).error.username == Some(Invalid)
  {
    SignUpRefusesMe(users, "me\U{2028}", email);
  }

  /** A username holding U+0000 never signs up: the framework's null-character
      validator refuses it. */
  lemma SignUpRefusesNullCharacter(users: map<UserId, User>, username: string, email: Field<string>)
    requires '\0' in Strip(username) && |Strip(username)| <= UsernameMaxLength
    ensures ValidateSignUp(users, Given(username), email).Failure?
    ensures ValidateSignUp(users, Given(username), email).error.username == Some(NullCharacter)
  {
  }

  /** A username or an email that a stored user already has never signs up. */
  lemma SignUpRefusesTaken(users: map<UserId, User>, id: UserId, username: string, email: string)
    requires id in users
    requires Strip(username) == users[id].username || Strip(email) == users[id].email
    ensures ValidateSignUp(users, Given(username), Given(email)).Failure?
  {
  }

  /** `create`: `User.objects.create(**validated_data)` inserts a row that
      keeps every user-table constraint, so the insert cannot fail. */
  lemma {:induction false} SignUpCreateKeepsConstraints(users: map<UserId, User>, id: UserId,
                                                        username: Field<string>, email: Field<string>)
    requires UserConstraints(users) && id !in users
    requires ValidateSignUp(users, username, email).Success?
    ensures RowAdmissible(users, id, SignUpRow(ValidateSignUp(users, username, email).value))
    ensures UserConstraints(users[id := SignUpRow(ValidateSignUp(users, username, email).value)])
  {
    var d := ValidateSignUp(users, username, email).value;
    FreshRowAdmissible(users, id, SignUpRow(d));
    RowAdmissibleIff(users, id, SignUpRow(d));
  }

  /** The row `create` inserts. */
  function SignUpRow(d: SignUpData): (u: User)
    ensures u.username == d.username && u.email == d.email && IsUser(u)
  {
    NewUser(d.username, d.email)
  }

  /** `SignUpSerializer.update`: `username` and `email` are taken from the
      validated data when present, and every other key of it, the
      `confirmation_code` passed to the second `save` included, is ignored. */
  function SignUpUpdate(instance: User, username: Option<string>, email: Option<string>,
                        confirmationCode: Option<string>): (u: User)
    ensures u.username == (if username.Some? then username.value else instance.username)
    ensures u.email == (if email.Some? then email.value else instance.email)
    ensures u.(username := instance.username, email := instance.email) == instance
    ensures u.confirmationCode == instance.confirmationCode && u.role == instance.role
  {
    instance.(username := if username.Some? then username.value else instance.username,
              email := if email.Some? then email.value else instance.email)
  }

  /** The second `save(confirmation_code=token)` of a sign-up writes back the
      row that `create` inserted, unchanged, whatever the token. */
  lemma SecondSaveIsIdentity(d: SignUpData, token: string)
    ensures SignUpUpdate(SignUpRow(d), Some(d.username), Some(d.email), Some(token)) == SignUpRow(d)
    ensures SignUpRow(d).confirmationCode == ""
  {
  }

  // ---- UsersSerializer ----

  /** The writable fields of `UsersSerializer`. */
  datatype UserField = UsernameKey | EmailKey | RoleKey | BioKey | FirstNameKey | LastNameKey

  /** The body of a `PATCH` on a user. */
  datatype UserPatch = UserPatch(
    username: Field<string>,
    email: Field<string>,
    role: Field<string>,
    bio: Field<string>,
    firstName: Field<string>,
    lastName: Field<string>)

  /** Some stored user other than `id` has the username. */
  predicate UsernameUsedByOther(users: map<UserId, User>, id: UserId, name: string)
  {
    exists other | other in users && other != id :: users[other].username == name
  }

  /** Some stored user other than `id` has the email. */
  predicate EmailUsedByOther(users: map<UserId, User>, id: UserId, email: string)
  {
    exists other | other in users && other != id :: users[other].email == email
  }

  /** `username`, as the model serializer derives it from `AbstractUser.username`:
      `max_length=150` and a `UniqueValidator` that skips the instance itself.
      The `validate_username` written inside `Meta` is not a serializer method and
      never runs, so `me` passes. */
  function PatchUsername(users: map<UserId, User>, id: UserId, f: Field<string>): (r: Result<Option<string>, FieldError>)
    ensures r.Success? <==>
      OptionalText(f, false, Some(UsernameMaxLength)).Success? && (f.Given? ==> !UsernameUsedByOther(users, id, Strip(f.value)))
    ensures r.Success? ==> r == OptionalText(f, false, Some(UsernameMaxLength))
  {
    match OptionalText(f, false, Some(UsernameMaxLength))
    case Failure(e) => Failure(e)
    case Success(v) => if v.Some? && UsernameUsedByOther(users, id, v.value) then Failure(NotUnique) else Success(v)
  }

  /** `email`, derived from `email = EmailField(max_length=254, unique=True)`. */
  function PatchEmail(users: map<UserId, User>, id: UserId, f: Field<string>): (r: Result<Option<string>, FieldError>)
    ensures r.Success? <==>
      OptionalText(f, false, Some(EmailMaxLength)).Success? && (f.Given? ==> !EmailUsedByOther(users, id, Strip(f.value)))
    ensures r.Success? ==> r == OptionalText(f, false, Some(EmailMaxLength))
  {
    match OptionalText(f, false, Some(EmailMaxLength))
    case Failure(e) => Failure(e)
    case Success(v) => if v.Some? && EmailUsedByOther(users, id, v.value) then Failure(NotUnique) else Success(v)
  }

  /** `role`, a `ChoiceField` over `CHOICES`; the value is not stripped. */
  function PatchRole(f: Field<string>): (r: Result<Option<string>, FieldError>)
    ensures r.Success? <==> f.Absent? || (f.Given? && ValidRole(f.value))
    ensures r.Success? && f.Given? ==> r.value == Some(f.value)
    ensures f.Absent? ==> r == Success(None)
  {
    match f
    case Absent => Success(None)
    case Null => Failure(NotNull)
    case Given(v) => if ValidRole(v) then Success(Some(v)) else Failure(InvalidChoice)
  }

  function Or(v: Option<string>, default: string): string
  {
    if v.Some? then v.value else default
  }

  /** `UsersSerializer(instance, data=patch, partial=True).is_valid()` followed by
      the assignments of `update`: the user row that `save()` then writes. */
  function ValidateUserPatch(users: map<UserId, User>, id: UserId, instance: User, p: UserPatch): (r: Result<User, map<UserField, FieldError>>)
    ensures r.Success? <==>
      && PatchUsername(users, id, p.username).Success?
      && PatchEmail(users, id, p.email).Success?
      && PatchRole(p.role).Success?
      && OptionalText(p.bio, true, None).Success?
      && OptionalText(p.firstName, true, Some(NameMaxLength)).Success?
      && OptionalText(p.lastName, true, Some(NameMaxLength)).Success?
    ensures r.Failure? ==> r.error == PatchErrors(users, id, p)
    ensures r.Success? ==> r.value.username == (if p.username.Given? then Strip(p.username.value) else instance.username)
    ensures r.Success? ==> r.value.email == (if p.email.Given? then Strip(p.email.value) else instance.email)
    ensures r.Success? ==> r.value.role == (if p.role.Given? then p.role.value else instance.role)
    ensures r.Success? ==> r.value.bio == (if p.bio.Given? then Strip(p.bio.value) else instance.bio)
    ensures r.Success? ==> r.value.firstName == (if p.firstName.Given? then Strip(p.firstName.value) else instance.firstName)
    ensures r.Success? ==> r.value.lastName == (if p.lastName.Given? then Strip(p.lastName.value) else instance.lastName)
    ensures r.Success? && ValidRole(instance.role) ==> ValidRole(r.value.role)
    ensures r.Success? ==> r.value.confirmationCode == instance.confirmationCode
    ensures r.Success? ==> r.value.isStaff == instance.isStaff && r.value.isSuperuser == instance.isSuperuser
  {
    var u := FieldOutcome(users, id, p, UsernameKey);
    var e := FieldOutcome(users, id, p, EmailKey);
    var ro := FieldOutcome(users, id, p, RoleKey);
    var b := FieldOutcome(users, id, p, BioKey);
    var fi := FieldOutcome(users, id, p, FirstNameKey);
    var la := FieldOutcome(users, id, p, LastNameKey);
    if u.Success? && e.Success? && ro.Success? && b.Success? && fi.Success? && la.Success? then
      Success(instance.(
        username := Or(u.value, instance.username),
        email := Or(e.value, instance.email),
        role := Or(ro.value, instance.role),
        bio := Or(b.value, instance.bio),
        firstName := Or(fi.value, instance.firstName),
        lastName := Or(la.value, instance.lastName)))
    else
      Failure(PatchErrors(users, id, p))
  }

  const AllUserFields: set<UserField> := {UsernameKey, EmailKey, RoleKey, BioKey, FirstNameKey, LastNameKey}

  lemma EveryUserField()
    ensures forall k: UserField :: k in AllUserFields
  {
    forall k: UserField ensures k in AllUserFields {
      match k
      case UsernameKey =>
      case EmailKey =>
      case RoleKey =>
      case BioKey =>
      case FirstNameKey =>
      case LastNameKey =>
    }
  }

  /** How the serializer treats one field of a patch. */
  function FieldOutcome(users: map<UserId, User>, id: UserId, p: UserPatch, k: UserField): Result<Option<string>, FieldError>
  {
    match k
    case UsernameKey => PatchUsername(users, id, p.username)
    case EmailKey => PatchEmail(users, id, p.email)
    case RoleKey => PatchRole(p.role)
    case BioKey => OptionalText(p.bio, true, None)
    case FirstNameKey => OptionalText(p.firstName, true, Some(NameMaxLength))
    case LastNameKey => OptionalText(p.lastName, true, Some(NameMaxLength))
  }

  /** The serializer's `errors` for a patch: an entry for each refused field,
      holding why it was refused. */
  function PatchErrors(users: map<UserId, User>, id: UserId, p: UserPatch): (m: map<UserField, FieldError>)
    ensures forall k :: k in m <==> FieldOutcome(users, id, p, k).Failure?
    ensures forall k | k in m :: m[k] == FieldOutcome(users, id, p, k).error
  {
    EveryUserField();
    map k | k in AllUserFields && FieldOutcome(users, id, p, k).Failure? :: FieldOutcome(users, id, p, k).error
  }

  /** The user serializer lets the username `me` through, unlike the sign-up
      serializer. */
  lemma UsersSerializerAcceptsMe(users: map<UserId, User>, id: UserId)
    requires UserConstraints(users) && id in users
    ensures ValidateUserPatch(users, id, users[id], UserPatch(Given(ReservedUsername), Absent, Absent, Absent, Absent, Absent))
            == Success(users[id].(username := ReservedUsername))
  {
    var p := UserPatch(Given(ReservedUsername), Absent, Absent, Absent, Absent, Absent);
    assert Strip(ReservedUsername) == ReservedUsername;
    assert !UsernameUsedByOther(users, id, ReservedUsername);
    var r := ValidateUserPatch(users, id, users[id], p);
    assert r.Success?;
    assert r.value == users[id].(username := ReservedUsername);
  }

  /** Once the serializer has accepted a patch of a stored user, the database
      refuses the row exactly when its username is `me`: the unique validators
      cover both unique columns, and nothing covers the check constraint. */
  lemma {:induction false} PatchSaveFailsOnlyForMe(users: map<UserId, User>, id: UserId, p: UserPatch)
    requires UserConstraints(users) && id in users
    requires ValidateUserPatch(users, id, users[id], p).Success?
    ensures RowAdmissible(users, id, ValidateUserPatch(users, id, users[id], p).value)
            <==> ValidateUserPatch(users, id, users[id], p).value.username != ReservedUsername
  {
    var u := ValidateUserPatch(users, id, users[id], p).value;
    forall other | other in users && other != id
      ensures users[other].username != u.username && users[other].email != u.email
    {
      if !p.username.Given? { assert users[other].username != users[id].username; }
      if !p.email.Given? { assert users[other].email != users[id].email; }
    }
  }

  /** A patch without `role` leaves the role as stored. */
  lemma PatchWithoutRoleKeepsRole(users: map<UserId, User>, id: UserId, instance: User, p: UserPatch)
    requires !p.role.Given?
    requires ValidateUserPatch(users, id, instance, p).Success?
    ensures ValidateUserPatch(users, id, instance, p).value.role == instance.role
  {
  }

  // ---- ReviewSerializer and CommentSerializer ----

  datatype ReviewField = TextKey | ScoreKey

  /** The writable fields of a review: `text` and `score`. */
  datatype ReviewInput = ReviewInput(text: Field<string>, score: Field<int>)

  /** `score`, an `IntegerField(min_value=1, max_value=10)` derived from the model's validators. */
  function CleanScore(f: Field<int>): (r: Result<int, FieldError>)
    ensures r.Success? <==> f.Given? && ScoreInRange(f.value)
    ensures r.Success? ==> r.value == f.value
  {
    match f
    case Absent => Failure(Required)
    case Null => Failure(NotNull)
    case Given(v) => if MinScore <= v <= MaxScore then Success(v) else Failure(OutOfRange)
  }

  /** The field validation of `ReviewSerializer` on a create: `text` is a
      required `CharField(max_length=2000)`, `score` is in 1..10. */
  function ValidateReviewInput(input: ReviewInput): (r: Result<(string, int), map<ReviewField, FieldError>>)
    ensures r.Success? <==>
      && input.text.Given? && Strip(input.text.value) != [] && |Strip(input.text.value)| <= ReviewTextMaxLength
      && '\0' !in Strip(input.text.value)
      && input.score.Given? && ScoreInRange(input.score.value)
    ensures r.Success? ==> r.value == (Strip(input.text.value), input.score.value)
    ensures r.Failure? ==> (ScoreKey in r.error <==> !(input.score.Given? && ScoreInRange(input.score.value)))
    ensures r.Failure? ==> (TextKey in r.error <==> RequiredText(input.text, false, Some(ReviewTextMaxLength)).Failure?)
    ensures r.Failure? && TextKey in r.error ==> r.error[TextKey] == RequiredText(input.text, false, Some(ReviewTextMaxLength)).error
    ensures r.Failure? && ScoreKey in r.error ==> r.error[ScoreKey] == CleanScore(input.score).error
  {
    var t := RequiredText(input.text, false, Some(ReviewTextMaxLength));
    var s := CleanScore(input.score);
    if t.Success? && s.Success? then Success((t.value, s.value))
    else Failure((if t.Failure? then map[TextKey := t.error] else map[])
                 + (if s.Failure? then map[ScoreKey := s.error] else map[]))
  }

  /** What `ReviewSerializer.validate` decides. */
  datatype ReviewCheck = ReviewAccepted | TitleNotFound | AlreadyReviewed

  /** `ReviewSerializer.validate`: the path's title must exist (else 404), and
      a `POST` by an author who has already reviewed that title is refused. */
  function ValidateReview(t: Tables, author: UserId, title: TitleId, m: Method): (r: ReviewCheck)
    ensures r == TitleNotFound <==> title !in t.titles
    ensures r == AlreadyReviewed <==> title in t.titles && m == POST && ReviewExists(t.reviews, author, title)
  {
    if title !in t.titles then TitleNotFound
    else if ReviewExists(t.reviews, author, title) && m == POST then AlreadyReviewed
    else ReviewAccepted
  }

  /** A second review of the same title by the same author is refused. */
  lemma DuplicatePostRefused(t: Tables, v: ReviewId)
    requires v in t.reviews && t.reviews[v].title in t.titles
    ensures ValidateReview(t, t.reviews[v].author, t.reviews[v].title, POST) == AlreadyReviewed
  {
  }

  /** Any other method passes whenever the title exists, reviewed or not. */
  lemma NonPostAccepted(t: Tables, author: UserId, title: TitleId, m: Method)
    requires m != POST && title in t.titles
    ensures ValidateReview(t, author, title, m) == ReviewAccepted
  {
  }

  /** A review that `validate` accepted for a `POST`, by a stored author and
      with a fresh key, passes every database check. */
  lemma AcceptedReviewAdmissible(t: Tables, id: ReviewId, rv: Review)
    requires rv.author in t.users && id !in t.reviews
    requires ValidateReview(t, rv.author, rv.title, POST) == ReviewAccepted
    ensures ReviewAdmissible(t, id, rv)
  {
    FreshReviewAdmissible(t, id, rv);
  }

  /** The field validation of `CommentSerializer`: `text` is required and not blank. */
  function ValidateCommentInput(text: Field<string>): (r: Result<string, FieldError>)
    ensures r.Success? <==> text.Given? && Strip(text.value) != [] && '\0' !in Strip(text.value)
    ensures r.Success? ==> r.value == Strip(text.value)
  {
    RequiredText(text, false, None)
  }
}
