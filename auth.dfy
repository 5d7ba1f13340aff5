/**
 * Sessions, role checks and the account handlers of
 * src/Controllers/AuthController.php. `$_SESSION` is the explicit `Session`
 * value, `$_POST` a map from field names to strings, the clock an integer
 * `now`, and `password_hash` / `password_verify` / `filter_var` are
 * parameters.
 */
module Auth {
  import opened Wrappers
  import opened Strings
  import opened Sorting
  import opened Users

  /** SESSION_LIFETIME: seconds of inactivity after which a session expires. */
  const SessionLifetime := 3600

  /** The `$_SESSION` entries the application uses; absent entries are `None`. */
  datatype Session = Session(userId: Option<int>, email: Option<string>, role: Option<string>, lastActivity: Option<int>)

  /** A destroyed (or never started) session. */
  const NoSession := Session(None, None, None, None)

  predicate IsAuthenticated(s: Session) {
    s.userId.Some?
  }

  predicate IsAdmin(s: Session) {
    s.role == Some(RoleAdmin)
  }

  predicate IsManager(s: Session) {
    s.role == Some(RoleManager)
  }

  predicate IsUser(s: Session) {
    s.role == Some(RoleUser)
  }

  /** `getCurrentRole`: the session's role, "user" when there is none. */
  function CurrentRole(s: Session): (r: string)
    ensures s.role.Some? ==> r == s.role.value
    ensures s.role.None? ==> r == RoleUser
  {
    s.role.GetOr(RoleUser)
  }

  /** `canExport`: only admins and managers export. */
  predicate CanExport(s: Session) {
    IsAdmin(s) || IsManager(s)
  }

  /**
   * `$reservation['user_id'] == getCurrentUserId()`: PHP's loose `==`
   * between an integer and null is true exactly when the integer is 0.
   */
  predicate OwnedBy(owner: int, current: Option<int>) {
    if current.Some? then owner == current.value else owner == 0
  }

  /** `canModifyReservation`. */
  predicate CanModifyReservation(s: Session, owner: int) {
    IsAdmin(s) || IsManager(s) || OwnedBy(owner, s.userId)
  }

  /** `canDeleteReservation`. */
  predicate CanDeleteReservation(s: Session, owner: int) {
    IsAdmin(s) || IsManager(s) || OwnedBy(owner, s.userId)
  }

  /** The three role checks never hold together; a stored role satisfies exactly one. */
  lemma RolesExclusive(s: Session)
    ensures !(IsAdmin(s) && IsManager(s)) && !(IsAdmin(s) && IsUser(s)) && !(IsManager(s) && IsUser(s))
    ensures s.role.Some? && IsRole(s.role.value) ==> IsAdmin(s) || IsManager(s) || IsUser(s)
    ensures IsAdmin(s) || IsManager(s) || IsUser(s) ==> CurrentRole(s) == s.role.value
  {
  }

  /** Whoever may modify a reservation may delete it, and conversely. */
  lemma ModifyIffDelete(s: Session, owner: int)
    ensures CanModifyReservation(s, owner) <==> CanDeleteReservation(s, owner)
  {
  }

  /**
   * A plain user may touch only their own reservations; admins and
   * managers may touch all of them, and an anonymous visitor only rows
   * whose owner id is 0.
   */
  lemma PermissionByRole(s: Session, owner: int)
    ensures CanExport(s) ==> CanModifyReservation(s, owner)
    ensures !CanExport(s) && s.userId.Some? ==> (CanModifyReservation(s, owner) <==> owner == s.userId.value)
    ensures !CanExport(s) && s.userId.None? ==> (CanModifyReservation(s, owner) <==> owner == 0)
  {
  }

  /** The outcome of `requireAuth`. */
  datatype Gate = Admitted(session: Session) | ToLogin | Expired

  /**
   * `requireAuth`: an anonymous visitor goes to the login page; a session
   * idle for more than SESSION_LIFETIME seconds is destroyed; otherwise the
   * request goes on with `last_activity` set to now.
   */
  function RequireAuth(s: Session, now: int): (g: Gate)
    ensures g == ToLogin <==> !IsAuthenticated(s)
    ensures g == Expired <==> IsAuthenticated(s) && s.lastActivity.Some? && now - s.lastActivity.value > SessionLifetime
    ensures g.Admitted? ==> g.session == s.(lastActivity := Some(now))
  {
    if !IsAuthenticated(s) then ToLogin
    else if s.lastActivity.Some? && now - s.lastActivity.value > SessionLifetime then Expired
    else Admitted(s.(lastActivity := Some(now)))
  }

  /** Passing the gate renews the session: it stays open for another SESSION_LIFETIME seconds and no more. */
  lemma RequireAuthRenews(s: Session, now: int, later: int)
    requires RequireAuth(s, now).Admitted?
    ensures later - now <= SessionLifetime ==> RequireAuth(RequireAuth(s, now).session, later).Admitted?
    ensures later - now > SessionLifetime ==> RequireAuth(RequireAuth(s, now).session, later) == Expired
  {
  }

  /**
   * The session a request leaves behind once `requireAuth` has run: renewed
   * when admitted, destroyed when expired, untouched for an anonymous visitor.
   */
  function SessionAfterGate(s: Session, now: int): (r: Session)
    ensures RequireAuth(s, now).Admitted? ==> r == s.(lastActivity := Some(now)) && IsAuthenticated(r)
    ensures RequireAuth(s, now) == Expired ==> r == NoSession && !IsAuthenticated(r)
    ensures RequireAuth(s, now) == ToLogin ==> r == s
  {
    match RequireAuth(s, now)
    case Admitted(renewed) => renewed
    case Expired => NoSession
    case ToLogin => s
  }

  /** `logout`: the session is destroyed, so the next protected request goes to the login page. */
  function Logout(s: Session): (r: Session)
    ensures !IsAuthenticated(r) && !IsAdmin(r) && !IsManager(r) && !IsUser(r)
    ensures forall now :: RequireAuth(r, now) == ToLogin
  {
    NoSession
  }

  /** `$_POST[$key] ?? ''`. */
  function Posted(post: map<string, string>, key: string): (v: string)
    ensures key in post ==> v == post[key]
    ensures key !in post ==> v == ""
  {
    if key in post then post[key] else ""
  }

  /** Where each handler sends the browser. */
  datatype AuthOutcome =
    | NotPost          // not a POST: back to the form
    | NotAdmin         // the admin-only handlers turn everyone else away
    | MissingFields
    | BadCredentials
    | InvalidEmail
    | PasswordTooShort
    | PasswordMismatch
    | EmailTaken
    | CreateFailed
    | UpdateFailed
    | ServerError      // the model threw: the front controller's catch-all page
    | SelfDeletion
    | Done

  /** The checks `register` makes on the trimmed form before touching the table, in their order. */
  function RegistrationError(email: string, password: string, confirm: string, validEmail: string -> bool): (r: Option<AuthOutcome>)
    ensures r.None? <==> !Empty(email) && !Empty(password) && validEmail(email)
                         && ByteLength(password) >= 6 && password == confirm
    ensures r.Some? && (Empty(email) || Empty(password)) ==> r == Some(MissingFields)
  {
    if Empty(email) || Empty(password) then Some(MissingFields)
    else if !validEmail(email) then Some(InvalidEmail)
    else if ByteLength(password) < 6 then Some(PasswordTooShort)
    else if password != confirm then Some(PasswordMismatch)
    else None
  }

  /** `$_POST['role'] ?? ROLE_USER`, replaced by "user" when it is not one of the three roles. */
  function RequestedRole(post: map<string, string>): (role: string)
    ensures IsRole(role)
    ensures "role" in post && IsRole(post["role"]) ==> role == post["role"]
    ensures "role" !in post || !IsRole(post["role"]) ==> role == RoleUser
  {
    var role := if "role" in post then post["role"] else RoleUser;
    if IsRole(role) then role else RoleUser
  }

  /** Some user has this email and `verify` accepts the password against that user's stored digest. */
  predicate CredentialsMatch(rows: seq<UserRecord>, email: string, password: string,
                             verify: (string, string) -> bool)
  {
    exists u :: u in rows && u.email == email && verify(password, u.passwordHash)
  }

  /** The `$data` array `updateUser` assembles from the form. */
  function SubmittedChanges(post: map<string, string>): (c: UserChanges)
    ensures c.email.Some? <==> !Empty(Posted(post, "email"))
    ensures c.email.Some? ==> c.email.value == Trim(post["email"])
    ensures c.password.Some? <==> !Empty(Posted(post, "password"))
    ensures c.password.Some? ==> c.password.value == post["password"]
    ensures c.role.Some? <==> !Empty(Posted(post, "role")) && IsRole(post["role"])
    ensures c.role.Some? ==> c.role.value == post["role"]
  {
    UserChanges(
      if !Empty(Posted(post, "email")) then Some(Trim(post["email"])) else None,
      if !Empty(Posted(post, "password")) then Some(post["password"]) else None,
      if !Empty(Posted(post, "role")) && IsRole(post["role"]) then Some(post["role"]) else None)
  }

  class AuthController {
    const users: UserStore

    constructor (users: UserStore)
      ensures this.users == users
    {
      this.users := users;
    }

    /**
     * `login`: on a POST with a non-empty email and password whose
     * credentials check out, the session receives the user's id, email and
     * role and the current time; any other request leaves it as it was.
     * `verify` stands for `password_verify`.
     */
    method Login(s: Session, isPost: bool, post: map<string, string>,
                 verify: (string, string) -> bool, now: int) returns (outcome: AuthOutcome, s': Session)
      requires users.Valid()
      ensures outcome == Done <==>
                isPost && !Empty(Trim(Posted(post, "email"))) && !Empty(Trim(Posted(post, "password")))
                && CredentialsMatch(users.rows, Trim(Posted(post, "email")), Trim(Posted(post, "password")), verify)
      ensures outcome == Done ==>
                exists u :: u in users.rows && u.email == Trim(Posted(post, "email"))
                            && s' == Session(Some(u.id), Some(u.email), Some(u.role), Some(now))
      ensures outcome != Done ==> s' == s
      ensures outcome == NotPost <==> !isPost
      ensures outcome == MissingFields <==>
                isPost && (Empty(Trim(Posted(post, "email"))) || Empty(Trim(Posted(post, "password"))))
      ensures outcome == BadCredentials <==>
                isPost && !Empty(Trim(Posted(post, "email"))) && !Empty(Trim(Posted(post, "password")))
                && !CredentialsMatch(users.rows, Trim(Posted(post, "email")), Trim(Posted(post, "password")), verify)
    {
      s' := s;
      if !isPost {
        return NotPost, s';
      }
      var email := Trim(Posted(post, "email"));
      var password := Trim(Posted(post, "password"));
      if Empty(email) || Empty(password) {
        return MissingFields, s';
      }
      var user := users.VerifyCredentials(email, password, verify);
      if user.Some? {
        s' := s'.(userId := Some(user.value.id), email := Some(user.value.email),
                  role := Some(user.value.role), lastActivity := Some(now));
        outcome := Done;
      } else {
        UniqueEmail(users, email);
        outcome := BadCredentials;
      }
    }

    /**
     * `register`: after the field checks and a free email, a "user" account
     * is inserted with the digest `hash` gives the trimmed password; on
     * every other path the table is unchanged. `validEmail` stands for
     * `filter_var(..., FILTER_VALIDATE_EMAIL)`.
     */
    method Register(isPost: bool, post: map<string, string>, validEmail: string -> bool,
                    hash: string -> string, now: string) returns (outcome: AuthOutcome)
      requires users.Valid()
      modifies users
      ensures users.Valid()
      ensures outcome == NotPost <==> !isPost
      ensures isPost && RegistrationError(Trim(Posted(post, "email")), Trim(Posted(post, "password")),
                                          Trim(Posted(post, "confirm_password")), validEmail).Some? ==>
                outcome == RegistrationError(Trim(Posted(post, "email")), Trim(Posted(post, "password")),
                                             Trim(Posted(post, "confirm_password")), validEmail).value
      ensures outcome == Done <==>
                isPost && RegistrationError(Trim(Posted(post, "email")), Trim(Posted(post, "password")),
                                            Trim(Posted(post, "confirm_password")), validEmail).None?
                && old(users.FindByEmail(Trim(Posted(post, "email")))).None?
      ensures outcome == EmailTaken <==>
                isPost && RegistrationError(Trim(Posted(post, "email")), Trim(Posted(post, "password")),
                                            Trim(Posted(post, "confirm_password")), validEmail).None?
                && old(users.FindByEmail(Trim(Posted(post, "email")))).Some?
      ensures outcome == Done ==>
                users.rows == old(users.rows) + [UserRecord(old(users.nextId), Trim(Posted(post, "email")),
                                                            hash(Trim(Posted(post, "password"))),
                                                            RoleUser, now, now)]
      ensures outcome != Done ==> users.rows == old(users.rows) && users.nextId == old(users.nextId)
    {
      if !isPost {
        return NotPost;
      }
      var email := Trim(Posted(post, "email"));
      var password := Trim(Posted(post, "password"));
      var confirm := Trim(Posted(post, "confirm_password"));
      if Empty(email) || Empty(password) {
        return MissingFields;
      }
      if !validEmail(email) {
        return InvalidEmail;
      }
      if ByteLength(password) < 6 {
        return PasswordTooShort;
      }
      if password != confirm {
        return PasswordMismatch;
      }
      if users.FindByEmail(email).Some? {
        return EmailTaken;
      }
      var id := users.Create(email, password, RoleUser, hash, now);
      outcome := if id.Some? then Done else CreateFailed;
    }

    /**
     * `createUser` (admins only): inserts an account with the requested
     * role, or "user" when the role is missing or unknown.
     */
    method CreateUser(s: Session, post: map<string, string>, hash: string -> string, now: string)
      returns (outcome: AuthOutcome)
      requires users.Valid()
      modifies users
      ensures users.Valid()
      ensures outcome == NotAdmin <==> !IsAdmin(s)
      ensures outcome == MissingFields <==>
                IsAdmin(s) && (Empty(Trim(Posted(post, "email"))) || Empty(Trim(Posted(post, "password"))))
      ensures outcome == EmailTaken <==>
                IsAdmin(s) && !Empty(Trim(Posted(post, "email"))) && !Empty(Trim(Posted(post, "password")))
                && old(users.FindByEmail(Trim(Posted(post, "email")))).Some?
      ensures outcome == Done <==>
                IsAdmin(s) && !Empty(Trim(Posted(post, "email"))) && !Empty(Trim(Posted(post, "password")))
                && old(users.FindByEmail(Trim(Posted(post, "email")))).None?
      ensures outcome == Done ==>
                users.rows == old(users.rows) + [UserRecord(old(users.nextId), Trim(Posted(post, "email")),
                                                            hash(Trim(Posted(post, "password"))),
                                                            RequestedRole(post), now, now)]
      ensures outcome != Done ==> users.rows == old(users.rows) && users.nextId == old(users.nextId)
    {
      if !IsAdmin(s) {
        return NotAdmin;
      }
      var email := Trim(Posted(post, "email"));
      var password := Trim(Posted(post, "password"));
      var role := if "role" in post then post["role"] else RoleUser;
      if Empty(email) || Empty(password) {
        return MissingFields;
      }
      if !IsRole(role) {
        role := RoleUser;
      }
      if users.FindByEmail(email).Some? {
        return EmailTaken;
      }
      var id := users.Create(email, password, role, hash, now);
      outcome := if id.Some? then Done else CreateFailed;
    }

    /**
     * `updateUser` (admins only): writes the non-empty submitted fields of
     * user `id`; a submitted role that is not one of the three is dropped
     * and the other fields are still written. The password is stored as
     * typed, untrimmed. A taken email makes the statement throw; no row with
     * that id still reports success.
     */
    method UpdateUser(s: Session, id: int, post: map<string, string>, hash: string -> string)
      returns (outcome: AuthOutcome)
      requires users.Valid()
      modifies users
      ensures users.Valid() && users.nextId == old(users.nextId) && |users.rows| == |old(users.rows)|
      ensures !IsAdmin(s) ==> outcome == NotAdmin
      ensures IsAdmin(s) ==> outcome != NotAdmin
      ensures IsAdmin(s) ==>
                (outcome == UpdateFailed <==> !AnySupplied(SubmittedChanges(post)))
      ensures IsAdmin(s) ==>
                (outcome == ServerError <==>
                   AnySupplied(SubmittedChanges(post)) && old(users.FindById(id)).Some?
                   && EmailClash(old(users.rows), id, SubmittedChanges(post)))
      ensures IsAdmin(s) ==>
                (outcome == Done <==>
                   AnySupplied(SubmittedChanges(post))
                   && !(old(users.FindById(id)).Some? && EmailClash(old(users.rows), id, SubmittedChanges(post))))
      ensures outcome == Done ==>
                forall i :: 0 <= i < |users.rows| ==>
                  users.rows[i] == if old(users.rows[i]).id == id
                                   then Changed(old(users.rows[i]), SubmittedChanges(post), hash)
                                   else old(users.rows[i])
      ensures outcome != Done ==> users.rows == old(users.rows)
      ensures forall i :: 0 <= i < |users.rows| ==>
                users.rows[i].role == old(users.rows[i]).role || users.rows[i].role == Posted(post, "role")
    {
      if !IsAdmin(s) {
        return NotAdmin;
      }
      var email: Option<string> := None;
      var password: Option<string> := None;
      var role: Option<string> := None;
      if !Empty(Posted(post, "email")) {
        email := Some(Trim(post["email"]));
      }
      if !Empty(Posted(post, "password")) {
        password := Some(post["password"]);
      }
      if !Empty(Posted(post, "role")) && IsRole(post["role"]) {
        role := Some(post["role"]);
      }
      assert UserChanges(email, password, role) == SubmittedChanges(post);
      var r := users.Update(id, UserChanges(email, password, role), hash);
      match r {
        case Updated => outcome := Done;
        case NothingToUpdate => outcome := UpdateFailed;
        case Raised => outcome := ServerError;
      }
    }

    /**
     * `deleteUser` (admins only): removes user `id`, except that an admin
     * may not remove their own account.
     */
    method DeleteUser(s: Session, id: int) returns (outcome: AuthOutcome)
      requires users.Valid()
      modifies users
      ensures users.Valid()
      ensures !IsAdmin(s) ==> outcome == NotAdmin
      ensures outcome == SelfDeletion <==> IsAdmin(s) && s.userId == Some(id)
      ensures outcome == Done <==> IsAdmin(s) && s.userId != Some(id)
      ensures outcome == Done ==> users.rows == Where(old(users.rows), (u: UserRecord) => u.id != id)
      ensures outcome != Done ==> users.rows == old(users.rows)
      ensures forall u :: u in old(users.rows) && s.userId == Some(u.id) ==> u in users.rows
    {
      if !IsAdmin(s) {
        return NotAdmin;
      }
      if s.userId == Some(id) {
        return SelfDeletion;
      }
      var ok := users.Delete(id);
      outcome := if ok then Done else ServerError;
    }
  }

  /** Emails are unique, so the user `findByEmail` returns is the only one with that email. */
  lemma UniqueEmail(users: UserStore, email: string)
    requires users.Valid()
    ensures forall u :: u in users.rows && u.email == email ==> users.FindByEmail(email) == Some(u)
  {
    forall u | u in users.rows && u.email == email ensures users.FindByEmail(email) == Some(u) {
      var v := users.FindByEmail(email).value;
      var i :| 0 <= i < |users.rows| && users.rows[i] == u;
      var j :| 0 <= j < |users.rows| && users.rows[j] == v;
      assert i == j;
    }
  }

  /**
   * With a `verify` that accepts every password against its own digest, the
   * account `register` or `createUser` appends lets the same email and
   * password (both trimmed, as `login` trims them) log in.
   */
  lemma {:induction false} AppendedAccountLogsIn(rows: seq<UserRecord>, id: int, post: map<string, string>,
                                                 role: string, now: string,
                                                 hash: string -> string, verify: (string, string) -> bool)
    requires forall p :: verify(p, hash(p))
    ensures CredentialsMatch(rows + [UserRecord(id, Trim(Posted(post, "email")), hash(Trim(Posted(post, "password"))),
                                                role, now, now)],
                             Trim(Posted(post, "email")), Trim(Posted(post, "password")), verify)
  {
    var password := Trim(Posted(post, "password"));
    var u := UserRecord(id, Trim(Posted(post, "email")), hash(password), role, now, now);
    assert u == (rows + [u])[|rows|];
    assert verify(password, hash(password));
  }

  /**
   * `updateUser` stores the digest of the password exactly as typed, while
   * `login` trims the password it receives. With a `verify` that accepts a
   * password only against its own digest, a password set through
   * `updateUser` with a leading or trailing blank never logs in.
   */
  lemma PaddedPasswordLocksOut(typed: string, hash: string -> string, verify: (string, string) -> bool)
    requires typed != [] && (IsTrimChar(typed[0]) || IsTrimChar(typed[|typed| - 1]))
    requires forall p, q :: verify(p, hash(q)) <==> p == q
    ensures !verify(Trim(typed), hash(typed))
  {
    TrimShape(typed);
  }
}
