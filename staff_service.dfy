// The staff service (internal/service/staff_ser.go): registration, profile
// update, avatar replacement and the profile read, over the user table and
// the wallet ledger. Password hashing, uuid generation and file storage are
// outside the model; their outcomes are parameters.
module StaffService {
  import opened Results
  import opened Text
  import Clock
  import UserRepo
  import AccountRepo
  import TokenUtil

  const MaxUsernameLen := 50
  const MaxEmailLen := 100
  const MaxPhoneLen := 20
  const MaxRoleLen := 20
  const DefaultBirthDate: string := "2000-01-01"
  const DefaultGender: string := "female"
  const DefaultRealName: string := "staff"
  const DefaultAvatar: string := "https://example.com/avatar/lisi.jpg"
  /** The avatar that is never deleted when replaced. */
  const DefaultAvatarUrl: string := "default-avatar.png"

  datatype StaffError =
    // Register
    | BlankUsername | UsernameTooLong | BlankPassword
    | EmailTooLong | BadEmail | PhoneTooLong | BadPhone | RoleTooLong
    | UsernameTaken | EmailTaken | PhoneTaken
    | HashFailed | UuidFailed
    | CreateUserFailed(insert: UserRepo.UserRepoError)
    | CreateAccountFailed(account: AccountRepo.RepoError)
    // UpdateAvatar, UpdateUser, GetUserByUuid
    | BlankUuid | NoFile | BlankFileName | NoExtension | BadExtension
    | UserNotFound | LookupFailed(lookup: UserRepo.UserRepoError)
    | SaveFailed(save: TokenUtil.AvatarError) | DeleteOldFailed
    | UpdateFailed(update: UserRepo.UserRepoError)
    | BadBirthFormat | BadBirthDate | BirthInFuture | AnyTaken

  // ---------------------------------------------------------------------
  // The two patterns.

  /** `^1[3-9]\d{9}$`: an eleven-digit mainland mobile number. */
  predicate IsPhone(s: string) {
    |s| == 11 && s[0] == '1' && '3' <= s[1] <= '9' && forall i :: 2 <= i < 11 ==> IsDigit(s[i])
  }

  /** The 20-byte limit never refuses a number the pattern accepts; it only
      gives longer input its own message. */
  lemma PhoneLimitOnlyRenames(s: string)
    ensures IsPhone(s) ==> |s| <= MaxPhoneLen
    ensures |s| > MaxPhoneLen ==> !IsPhone(s)
  {
  }

  predicate LocalChar(c: char) {
    IsLetter(c) || IsDigit(c) || c == '.' || c == '_' || c == '%' || c == '+' || c == '-'
  }

  predicate DomainChar(c: char) {
    IsLetter(c) || IsDigit(c) || c == '.' || c == '-'
  }

  /** An '@' at `at` and a dot at `dot` that split `s` into a local part,
      a host part and a final label of two or more letters. */
  predicate EmailSplit(s: string, at: int, dot: int) {
    && 0 < at && at + 1 < dot < |s| - 2 && s[at] == '@' && s[dot] == '.'
    && (forall i :: 0 <= i < at ==> LocalChar(s[i]))
    && (forall i :: at < i < dot ==> DomainChar(s[i]))
    && (forall i :: dot < i < |s| ==> IsLetter(s[i]))
  }

  /** `^[a-zA-Z0-9._%+-]+@[a-zA-Z0-9.-]+\.[a-zA-Z]{2,}$`, read as the regular
      expression states it: some '@' and some later dot split the text. */
  ghost predicate EmailPattern(s: string) {
    exists at, dot :: EmailSplit(s, at, dot)
  }

  /** The same language, decided by the last '@' and the last dot: neither
      part may hold an '@', and the final label holds no dot. */
  predicate IsEmail(s: string) {
    EmailSplit(s, LastIndexOf(s, '@'), LastIndexOf(s, '.'))
  }

  /** The pattern's '@' and final dot are the last ones, so a text the
      pattern accepts is accepted by `IsEmail`. */
  lemma PatternIsEmail(s: string, at: int, dot: int)
    requires EmailSplit(s, at, dot)
    ensures IsEmail(s)
  {
    var lastAt := LastIndexOf(s, '@');
    var lastDot := LastIndexOf(s, '.');
    assert dot <= lastDot;
    assert !IsLetter(s[lastDot]);
    assert at <= lastAt;
    assert !DomainChar(s[lastAt]) && !IsLetter(s[lastAt]);
  }

  /** The decision by last positions accepts exactly the pattern. */
  lemma IsEmailIff(s: string)
    ensures IsEmail(s) <==> EmailPattern(s)
  {
    if IsEmail(s) {
      assert EmailSplit(s, LastIndexOf(s, '@'), LastIndexOf(s, '.'));
    } else if EmailPattern(s) {
      var at, dot :| EmailSplit(s, at, dot);
      PatternIsEmail(s, at, dot);
    }
  }

  lemma EmailExample()
    ensures IsEmail("a.b@example.com")
    ensures !IsEmail("a@b.c") && !IsEmail("@example.com")
  {
    var s := "a.b@example.com";
    PatternIsEmail(s, 3, 11);
    var t := "@example.com";
    assert forall i :: 0 < i < |t| ==> t[i] != '@';
    IsEmailIff("a@b.c");
    IsEmailIff(t);
  }

  // ---------------------------------------------------------------------
  // Register: field checks, defaults, uniqueness, then the transaction.

  /** `dto.RegisterRequest` (the fields `Register` reads). */
  datatype RegisterRequest = RegisterRequest(
    username: string, password: string, email: string, phone: string,
    role: string, gender: string, realName: string)

  /** `dto.RegisterResponse`. */
  datatype RegisterResponse = RegisterResponse(userId: nat, username: string, role: string)

  /** The in-place trims and defaults of `Register`. Gender and real name
      are compared with "" untrimmed. */
  function Defaults(req: RegisterRequest): RegisterRequest {
    var role := TrimSpace(req.role);
    RegisterRequest(TrimSpace(req.username), req.password, TrimSpace(req.email), TrimSpace(req.phone),
                    if role == "" then UserRepo.DefaultRole else role,
                    if req.gender == "" then DefaultGender else req.gender,
                    if req.realName == "" then DefaultRealName else req.realName)
  }

  /** The trims and defaults: the key fields are trimmed, the password is
      kept as typed, and role, gender and real name are never empty. */
  lemma DefaultsFill(req: RegisterRequest)
    ensures var n := Defaults(req);
      && n.username == TrimSpace(req.username) && n.email == TrimSpace(req.email)
      && n.phone == TrimSpace(req.phone) && n.password == req.password
      && n.role != "" && n.gender != "" && n.realName != ""
  {
  }

  /** The first field check a trimmed request fails, in the order of the
      source. */
  function FieldError(n: RegisterRequest): (r: Option<StaffError>)
    ensures r.None? <==> (
      && 1 <= |n.username| <= MaxUsernameLen && !IsBlank(n.password)
      && EmailAccepted(n.email) && PhoneAccepted(n.phone) && |n.role| <= MaxRoleLen)
    ensures r.Some? ==> r.value in {BlankUsername, UsernameTooLong, BlankPassword, EmailTooLong,
                                    BadEmail, PhoneTooLong, BadPhone, RoleTooLong}
  {
    TrimSpaceEmptyIff(n.password);
    if n.username == "" then Some(BlankUsername)
    else if |n.username| > MaxUsernameLen then Some(UsernameTooLong)
    else if TrimSpace(n.password) == "" then Some(BlankPassword)
    else if n.email != "" && |n.email| > MaxEmailLen then Some(EmailTooLong)
    else if n.email != "" && !IsEmail(n.email) then Some(BadEmail)
    else if n.phone != "" && |n.phone| > MaxPhoneLen then Some(PhoneTooLong)
    else if n.phone != "" && !IsPhone(n.phone) then Some(BadPhone)
    else if |n.role| > MaxRoleLen then Some(RoleTooLong)
    else None
  }

  /** A trimmed email the register rules let through: none, or a
      well-formed one of at most 100 bytes. */
  predicate EmailAccepted(email: string) {
    email == "" || (|email| <= MaxEmailLen && IsEmail(email))
  }

  /** A trimmed phone the register rules let through: none, or a mainland
      mobile number of at most 20 bytes. */
  predicate PhoneAccepted(phone: string) {
    phone == "" || (|phone| <= MaxPhoneLen && IsPhone(phone))
  }

  /** The request after the trims and defaults, or the first check it fails. */
  function Normalize(req: RegisterRequest): Result<RegisterRequest, StaffError> {
    var n := Defaults(req);
    match FieldError(n)
    case Some(e) => Err(e)
    case None => Ok(n)
  }

  /** Which refusal a request gets, in the order of the source, and that a
      request passing every field rule is accepted as its trimmed,
      defaulted form. Email and phone are checked only when given. */
  lemma NormalizeSpec(req: RegisterRequest)
    ensures IsBlank(req.username) ==> Normalize(req) == Err(BlankUsername)
    ensures |TrimSpace(req.username)| > MaxUsernameLen ==> Normalize(req) == Err(UsernameTooLong)
    ensures !IsBlank(req.username) && |TrimSpace(req.username)| <= MaxUsernameLen && IsBlank(req.password) ==>
      Normalize(req) == Err(BlankPassword)
    ensures var n := Defaults(req);
      !IsBlank(req.username) && |n.username| <= MaxUsernameLen && !IsBlank(req.password) ==> (
      && (n.email != "" && |n.email| > MaxEmailLen ==> Normalize(req) == Err(EmailTooLong))
      && (n.email != "" && |n.email| <= MaxEmailLen && !IsEmail(n.email) ==> Normalize(req) == Err(BadEmail))
      && (EmailAccepted(n.email) ==> (
        && (n.phone != "" && |n.phone| > MaxPhoneLen ==> Normalize(req) == Err(PhoneTooLong))
        && (n.phone != "" && |n.phone| <= MaxPhoneLen && !IsPhone(n.phone) ==> Normalize(req) == Err(BadPhone))
        && (PhoneAccepted(n.phone) && |n.role| > MaxRoleLen ==> Normalize(req) == Err(RoleTooLong)))))
    ensures Normalize(req).Ok? <==> (
      && 1 <= |TrimSpace(req.username)| <= MaxUsernameLen
      && !IsBlank(req.password)
      && EmailAccepted(TrimSpace(req.email))
      && PhoneAccepted(TrimSpace(req.phone))
      && |Defaults(req).role| <= MaxRoleLen)
    ensures var r := Normalize(req); r.Ok? ==> (
      && r.value == Defaults(req)
      && r.value.username == TrimSpace(req.username)
      && 1 <= |r.value.username| <= MaxUsernameLen
      && r.value.password == req.password && !IsBlank(req.password)
      && r.value.email == TrimSpace(req.email)
      && (r.value.email == "" || (|r.value.email| <= MaxEmailLen && IsEmail(r.value.email)))
      && r.value.phone == TrimSpace(req.phone)
      && (r.value.phone == "" || IsPhone(r.value.phone))
      && r.value.role == (if IsBlank(req.role) then UserRepo.DefaultRole else TrimSpace(req.role))
      && |r.value.role| <= MaxRoleLen
      && r.value.gender == (if req.gender == "" then DefaultGender else req.gender)
      && r.value.realName == (if req.realName == "" then DefaultRealName else req.realName))
  {
    TrimSpaceEmptyIff(req.username);
    TrimSpaceEmptyIff(req.password);
    TrimSpaceEmptyIff(req.role);
  }

  /** The stored role is never blank, so the repository keeps it as given. */
  lemma DefaultRoleKept(req: RegisterRequest)
    ensures TrimSpace(Defaults(req).role) == Defaults(req).role != ""
  {
    TrimSpaceIdempotent(req.role);
    TrimSpaceOfTrimmed(UserRepo.DefaultRole);
  }

  /** Trimming the key fields a second time changes nothing. */
  lemma DefaultsKeepKeys(req: RegisterRequest)
    ensures var n := Defaults(req);
      Defaults(n).username == n.username && Defaults(n).email == n.email && Defaults(n).phone == n.phone
  {
    TrimSpaceIdempotent(req.username);
    TrimSpaceIdempotent(req.email);
    TrimSpaceIdempotent(req.phone);
  }

  /** Normalizing a normalized request accepts it and changes nothing. */
  lemma NormalizeIdempotent(req: RegisterRequest)
    requires Normalize(req).Ok?
    ensures Normalize(Normalize(req).value) == Normalize(req)
  {
    DefaultRoleKept(req);
    DefaultsKeepKeys(req);
    assert Defaults(Defaults(req)) == Defaults(req);
  }

  /** No stored user has this username. */
  predicate UsernameFree(users: UserRepo.UserStore, name: string)
    reads users
  {
    forall i :: i in users.rows ==> users.rows[i].username != name
  }

  /** No stored user has this email. */
  predicate EmailFree(users: UserRepo.UserStore, email: string)
    reads users
  {
    forall i :: i in users.rows ==> users.rows[i].email != Some(email)
  }

  /** No stored user has this phone. */
  predicate PhoneFree(users: UserRepo.UserStore, phone: string)
    reads users
  {
    forall i :: i in users.rows ==> users.rows[i].phone != Some(phone)
  }

  /** The three existence checks: the username always, email and phone
      only when given, each refused with its own error in this order. */
  function Uniqueness(users: UserRepo.UserStore, n: RegisterRequest): (r: Option<StaffError>)
    reads users
    ensures r.None? <==> (
      && UsernameFree(users, n.username)
      && (n.email != "" ==> EmailFree(users, n.email))
      && (n.phone != "" ==> PhoneFree(users, n.phone)))
    ensures r.Some? ==> r.value in {UsernameTaken, EmailTaken, PhoneTaken}
    ensures !UsernameFree(users, n.username) ==> r == Some(UsernameTaken)
    ensures UsernameFree(users, n.username) && n.email != "" && !EmailFree(users, n.email) ==> r == Some(EmailTaken)
    ensures (UsernameFree(users, n.username) && (n.email != "" ==> EmailFree(users, n.email)) &&
             n.phone != "" && !PhoneFree(users, n.phone)) ==> r == Some(PhoneTaken)
  {
    if users.CheckUsernameExist(n.username) then Some(UsernameTaken)
    else if n.email != "" && users.CheckEmailExist(n.email) then Some(EmailTaken)
    else if n.phone != "" && users.CheckPhoneExist(n.phone) then Some(PhoneTaken)
    else None
  }

  /** Everything `Register` decides before opening the transaction: the
      field checks, the uniqueness checks, the hash and the uuid. */
  function Admit(users: UserRepo.UserStore, req: RegisterRequest, hash: Option<string>, uuid: string): (r: Result<RegisterRequest, StaffError>)
    reads users
    ensures r.Ok? <==> Normalize(req).Ok? && Uniqueness(users, Normalize(req).value).None? && hash.Some? && uuid != ""
    ensures r.Ok? ==> r == Normalize(req)
    ensures Normalize(req).Err? ==> r == Normalize(req)
    ensures Normalize(req).Ok? && Uniqueness(users, Normalize(req).value).Some? ==>
      r == Err(Uniqueness(users, Normalize(req).value).value)
    ensures Normalize(req).Ok? && Uniqueness(users, Normalize(req).value).None? && hash.None? ==> r == Err(HashFailed)
    ensures Normalize(req).Ok? && Uniqueness(users, Normalize(req).value).None? && hash.Some? && uuid == "" ==>
      r == Err(UuidFailed)
  {
    match Normalize(req)
    case Err(e) => Err(e)
    case Ok(n) =>
      match Uniqueness(users, n)
      case Some(e) => Err(e)
      case None =>
        if hash.None? then Err(HashFailed)
        else if uuid == "" then Err(UuidFailed)
        else Ok(n)
  }

  /** `strToPtr`: blank text becomes NULL, anything else is kept as it is. */
  function StrToPtr(s: string): (r: Option<string>)
    ensures r.None? <==> IsBlank(s)
    ensures r.Some? ==> r.value == s
  {
    TrimSpaceEmptyIff(s);
    if TrimSpace(s) == "" then None else Some(s)
  }

  /** The user row `Register` builds, as written: an omitted email or phone
      is bound as "" rather than NULL, and that is its only difference from
      the intended row. */
  function NewUserAsWritten(n: RegisterRequest, uuid: string, hash: string): (u: UserRepo.User)
    ensures u.email == Some(n.email) && u.phone == Some(n.phone)
    ensures u == NewUser(n, uuid, hash).(email := Some(n.email), phone := Some(n.phone))
  {
    UserRepo.User(0, uuid, n.username, Some(n.email), Some(n.phone), hash, n.role,
                  Some(DefaultAvatar), Some(n.realName), Some(n.gender), Some(DefaultBirthDate))
  }

  /** The user row with an omitted email or phone stored as NULL, as the
      "check only when given" uniqueness rule intends. */
  function NewUser(n: RegisterRequest, uuid: string, hash: string): (u: UserRepo.User)
    ensures u.email.None? <==> IsBlank(n.email)
    ensures u.phone.None? <==> IsBlank(n.phone)
  {
    UserRepo.User(0, uuid, n.username, StrToPtr(n.email), StrToPtr(n.phone), hash, n.role,
                  Some(DefaultAvatar), Some(n.realName), Some(n.gender), Some(DefaultBirthDate))
  }

  /** As written, once one user registered without an email, the next one
      without an email passes every check of `Register` and is then refused
      by the unique email index. */
  lemma BlankEmailCollides(users: UserRepo.UserStore, i: nat, req: RegisterRequest, hash: string, uuid: string, id: nat, role: string)
    requires i in users.rows && i != 0 && users.rows[i].email == Some("")
    requires Admit(users, req, Some(hash), uuid).Ok? && IsBlank(req.email)
    ensures Normalize(req).value.email == ""
    ensures UserRepo.Conflict(users.rows, NewUserAsWritten(Normalize(req).value, uuid, hash).(id := id, role := role), 0).Some?
  {
    TrimSpaceEmptyIff(req.email);
    assert UserRepo.ClashKey(users.rows[i], NewUserAsWritten(Normalize(req).value, uuid, hash).(id := id, role := role)).Some?;
  }

  /** With NULL for an omitted email and phone, a request that passed the
      uniqueness checks can only collide on the generated uuid. */
  lemma AdmittedOnlyUuidClashes(users: UserRepo.UserStore, n: RegisterRequest, uuid: string, hash: string, id: nat, role: string)
    requires Uniqueness(users, n).None?
    requires forall i :: i in users.rows ==> users.rows[i].uuid != uuid
    ensures UserRepo.Conflict(users.rows, NewUser(n, uuid, hash).(id := id, role := role), 0).None?
  {
    var u := NewUser(n, uuid, hash).(id := id, role := role);
    forall i | i in users.rows && i != 0
      ensures UserRepo.ClashKey(users.rows[i], u).None?
    {
    }
  }

  /** Every user has a wallet. */
  ghost predicate Linked(users: UserRepo.Table, accounts: AccountRepo.Table) {
    forall i :: i in users ==> users[i].uuid in accounts
  }

  /** `Register` as written. The deferred handler reads the outer `err`,
      which the failing calls shadow, so it commits: a refused account
      insert returns an error yet leaves the new user row in place. */
  method RegisterAsWritten(users: UserRepo.UserStore, accounts: AccountRepo.AccountStore,
                           req: RegisterRequest, hash: Option<string>, uuid: string)
    returns (r: Result<RegisterResponse, StaffError>)
    requires users.Valid() && accounts.Valid()
    modifies users, accounts
    ensures users.Valid() && accounts.Valid()
    ensures old(Admit(users, req, hash, uuid)).Err? ==> users.nextId == old(users.nextId) && accounts.nextId == old(accounts.nextId)
    ensures old(Admit(users, req, hash, uuid)).Ok? ==> users.nextId == old(users.nextId) + 1
    ensures old(Admit(users, req, hash, uuid)).Err? ==>
      r == Err(old(Admit(users, req, hash, uuid)).error) && users.rows == old(users.rows) && accounts.rows == old(accounts.rows)
    ensures r.Ok? ==> accounts.rows == old(accounts.rows)[uuid := AccountRepo.Account(old(accounts.nextId), uuid, 0, 0, 0)]
    ensures (old(Admit(users, req, hash, uuid)).Ok? && uuid in old(accounts.rows) &&
             old(UserRepo.Conflict(users.rows, NewUserAsWritten(Admit(users, req, hash, uuid).value, uuid, hash.value)
                                                 .(id := users.nextId), 0)).None?) ==> (
      && r == Err(CreateAccountFailed(AccountRepo.DuplicateUuid))
      && accounts.rows == old(accounts.rows)
      && old(users.nextId) !in old(users.rows)
      && users.rows == old(users.rows)[old(users.nextId) :=
           NewUserAsWritten(old(Admit(users, req, hash, uuid)).value, uuid, hash.value).(id := old(users.nextId))])
  {
    var a := Admit(users, req, hash, uuid);
    if a.Err? {
      return Err(a.error);
    }
    DefaultRoleKept(req);
    var n := a.value;
    var u := NewUserAsWritten(n, uuid, hash.value);
    ghost var id := users.nextId;
    ghost var role := if TrimSpace(u.role) == "" then UserRepo.DefaultRole else u.role;
    assert u.(id := id, role := role) == u.(id := id);
    var created := users.CreateUser(u);
    if created.Err? {
      return Err(CreateUserFailed(created.error));
    }
    assert users.rows == old(users.rows)[id := u.(id := id)];
    var e := accounts.CreateAccount(uuid);
    if e.Some? {
      // the deferred handler sees a nil `err` and commits the user row
      return Err(CreateAccountFailed(e.value));
    }
    r := Ok(RegisterResponse(created.value.id, created.value.username, created.value.role));
  }

  /** `Register` with the transaction it means to have: both rows are
      written or neither is, every user keeps a wallet, and an omitted
      email or phone is stored as NULL. */
  method Register(users: UserRepo.UserStore, accounts: AccountRepo.AccountStore,
                  req: RegisterRequest, hash: Option<string>, uuid: string)
    returns (r: Result<RegisterResponse, StaffError>)
    requires users.Valid() && accounts.Valid()
    modifies users, accounts
    ensures users.Valid() && accounts.Valid()
    ensures old(Admit(users, req, hash, uuid)).Err? ==> users.nextId == old(users.nextId) && accounts.nextId == old(accounts.nextId)
    ensures old(Admit(users, req, hash, uuid)).Ok? ==> users.nextId == old(users.nextId) + 1
    ensures r.Err? ==> users.rows == old(users.rows) && accounts.rows == old(accounts.rows)
    ensures old(Linked(users.rows, accounts.rows)) ==> Linked(users.rows, accounts.rows)
    ensures old(Admit(users, req, hash, uuid)).Err? ==> r == Err(old(Admit(users, req, hash, uuid)).error)
    ensures r.Ok? ==> (
      && old(Admit(users, req, hash, uuid)).Ok?
      && r.value == RegisterResponse(old(users.nextId), old(Admit(users, req, hash, uuid)).value.username,
                                     old(Admit(users, req, hash, uuid)).value.role)
      && users.rows == old(users.rows)[old(users.nextId) :=
           NewUser(old(Admit(users, req, hash, uuid)).value, uuid, hash.value).(id := old(users.nextId))]
      && accounts.rows == old(accounts.rows)[uuid := AccountRepo.Account(old(accounts.nextId), uuid, 0, 0, 0)])
    ensures (old(Admit(users, req, hash, uuid)).Ok? && uuid !in old(accounts.rows) &&
             forall i :: i in old(users.rows) ==> old(users.rows)[i].uuid != uuid) ==> r.Ok?
  {
    var a := Admit(users, req, hash, uuid);
    if a.Err? {
      return Err(a.error);
    }
    DefaultRoleKept(req);
    var n := a.value;
    var u := NewUser(n, uuid, hash.value);
    ghost var id := users.nextId;
    ghost var role := if TrimSpace(u.role) == "" then UserRepo.DefaultRole else u.role;
    assert u.(id := id, role := role) == u.(id := id);
    if forall i :: i in users.rows ==> users.rows[i].uuid != uuid {
      AdmittedOnlyUuidClashes(users, n, uuid, hash.value, id, role);
    }
    var created := users.CreateUser(u);
    if created.Err? {
      return Err(CreateUserFailed(created.error));
    }
    ghost var withUser := users.rows;
    assert withUser == old(users.rows)[id := u.(id := id)];
    var e := accounts.CreateAccount(uuid);
    if e.Some? {
      users.RollbackInsert(created.value.id);
      assert users.rows == old(users.rows) by {
        assert id !in old(users.rows);
      }
      return Err(CreateAccountFailed(e.value));
    }
    assert accounts.rows == old(accounts.rows)[uuid := AccountRepo.Account(old(accounts.nextId), uuid, 0, 0, 0)];
    r := Ok(RegisterResponse(created.value.id, created.value.username, created.value.role));
  }

  // ---------------------------------------------------------------------
  // UpdateUser.

  /** `dto.UpdateUserReq`. */
  datatype UpdateUserReq = UpdateUserReq(
    uuid: string, username: string, email: string, phone: string,
    realName: string, gender: string, birthDate: string)

  /** `^\d{4}-\d{2}-\d{2}$`. */
  predicate DateShaped(s: string) {
    |s| == 10 && s[4] == '-' && s[7] == '-' &&
    Clock.AllDigits(s, 0, 4) && Clock.AllDigits(s, 5, 7) && Clock.AllDigits(s, 8, 10)
  }

  /** The checks of `UpdateUser`, in order; `now` is the current UTC time. */
  function CheckUpdate(req: UpdateUserReq, now: Clock.DateTime): (r: Option<StaffError>)
    ensures IsBlank(req.uuid) ==> r == Some(BlankUuid)
    ensures r.None? <==> (
      && !IsBlank(req.uuid)
      && (req.phone == "" || IsPhone(req.phone))
      && (req.birthDate != "" ==>
            && Clock.ParseDate(req.birthDate).Some?
            && !Clock.After(Clock.ParseDate(req.birthDate).value, now)
            && Clock.FormatDate(Clock.ParseDate(req.birthDate).value) == req.birthDate))
    ensures !IsBlank(req.uuid) && req.phone != "" && !IsPhone(req.phone) ==> r == Some(BadPhone)
    ensures !IsBlank(req.uuid) && (req.phone == "" || IsPhone(req.phone)) && req.birthDate != "" ==> (
      && (!DateShaped(req.birthDate) ==> r == Some(BadBirthFormat))
      && (DateShaped(req.birthDate) && Clock.ParseDate(req.birthDate).None? ==> r == Some(BadBirthDate))
      && (Clock.ParseDate(req.birthDate).Some? && Clock.After(Clock.ParseDate(req.birthDate).value, now) ==>
            r == Some(BirthInFuture)))
  {
    TrimSpaceEmptyIff(req.uuid);
    if TrimSpace(req.uuid) == "" then Some(BlankUuid)
    else if req.phone != "" && !IsPhone(req.phone) then Some(BadPhone)
    else if req.birthDate != "" && !DateShaped(req.birthDate) then Some(BadBirthFormat)
    else if req.birthDate != "" && Clock.ParseDate(req.birthDate).None? then Some(BadBirthDate)
    else if req.birthDate != "" && Clock.After(Clock.ParseDate(req.birthDate).value, now) then Some(BirthInFuture)
    else
      (if req.birthDate != "" then Clock.FormatParseDate(req.birthDate); None else None)
  }

  /** The `model.User` handed to the repository: blank optional fields
      become NULL and are therefore left alone by the update. */
  function ToModel(req: UpdateUserReq): (u: UserRepo.User)
    ensures u.uuid == req.uuid && u.username == req.username
    ensures u.email == StrToPtr(req.email) && u.phone == StrToPtr(req.phone)
    ensures u.realName == StrToPtr(req.realName) && u.gender == StrToPtr(req.gender)
    ensures u.birthDate == StrToPtr(req.birthDate) && u.avatarUrl.None?
  {
    UserRepo.User(0, req.uuid, req.username, StrToPtr(req.email), StrToPtr(req.phone), "", "",
                  None, StrToPtr(req.realName), StrToPtr(req.gender), StrToPtr(req.birthDate))
  }

  /** A field of the request enters the change set exactly when it is not
      blank. */
  lemma ToModelChangeSet(req: UpdateUserReq)
    ensures UserRepo.Present(ToModel(req), UserRepo.UsernameCol) <==> !IsBlank(req.username)
    ensures UserRepo.Present(ToModel(req), UserRepo.EmailCol) <==> !IsBlank(req.email)
    ensures UserRepo.Present(ToModel(req), UserRepo.PhoneCol) <==> !IsBlank(req.phone)
    ensures UserRepo.Present(ToModel(req), UserRepo.RealNameCol) <==> !IsBlank(req.realName)
    ensures UserRepo.Present(ToModel(req), UserRepo.GenderCol) <==> !IsBlank(req.gender)
    ensures UserRepo.Present(ToModel(req), UserRepo.BirthDateCol) <==> !IsBlank(req.birthDate)
  {
    TrimSpaceEmptyIff(req.username);
    TrimSpaceEmptyIff(req.email);
    TrimSpaceEmptyIff(req.phone);
    TrimSpaceEmptyIff(req.realName);
    TrimSpaceEmptyIff(req.gender);
    TrimSpaceEmptyIff(req.birthDate);
  }

  /** The duplicate-entry messages, by the index named in the error. */
  function UpdateError(e: UserRepo.UserRepoError): (r: StaffError)
    ensures e == UserRepo.DuplicateKey(UserRepo.UsernameKey) <==> r == UsernameTaken
    ensures e == UserRepo.DuplicateKey(UserRepo.PhoneKey) <==> r == PhoneTaken
    ensures e == UserRepo.DuplicateKey(UserRepo.EmailKey) <==> r == EmailTaken
    ensures !e.DuplicateKey? <==> r == UpdateFailed(e)
  {
    match e
    case DuplicateKey(UsernameKey) => UsernameTaken
    case DuplicateKey(PhoneKey) => PhoneTaken
    case DuplicateKey(EmailKey) => EmailTaken
    case DuplicateKey(UuidKey) => AnyTaken
    case _ => UpdateFailed(e)
  }

  /** `UpdateUser`: the checks, then the repository's change-set update. */
  method UpdateUser(users: UserRepo.UserStore, req: UpdateUserReq, now: Clock.DateTime) returns (err: Option<StaffError>)
    requires users.Valid()
    modifies users
    ensures users.Valid() && users.nextId == old(users.nextId)
    ensures CheckUpdate(req, now).Some? ==> err == CheckUpdate(req, now)
    ensures CheckUpdate(req, now).None? && !UserRepo.HasChanges(ToModel(req)) ==>
      err == Some(UpdateFailed(UserRepo.NoFieldsToUpdate))
    ensures CheckUpdate(req, now).None? && UserRepo.HasChanges(ToModel(req)) &&
            (forall i :: i in old(users.rows) ==> old(users.rows)[i].uuid != req.uuid) ==>
      err == Some(UpdateFailed(UserRepo.NotFoundOrUnchanged))
    ensures forall id :: CheckUpdate(req, now).None? && UserRepo.HasChanges(ToModel(req)) &&
                         UserRepo.HoldsUuid(old(users.rows), id, req.uuid) ==>
      var before := old(users.rows)[id];
      var after := UserRepo.ApplyChanges(before, ToModel(req));
      var clash := UserRepo.Conflict(old(users.rows), after, id);
      && (clash.Some? ==> err == Some(UpdateError(UserRepo.DuplicateKey(clash.value))))
      && (clash.None? && after == before ==> err == Some(UpdateFailed(UserRepo.NotFoundOrUnchanged)))
      && (clash.None? && after != before ==> err.None? && users.rows == old(users.rows)[id := after])
    ensures err.Some? ==> users.rows == old(users.rows)
    ensures err.None? ==> (
      && CheckUpdate(req, now).None?
      && exists id :: UserRepo.Updated(old(users.rows), users.rows, id, ToModel(req)))
  {
    err := CheckUpdate(req, now);
    if err.Some? {
      return;
    }
    TrimSpaceEmptyIff(req.uuid);
    var e := users.UpdateUser(Some(ToModel(req)));
    if e.Some? {
      return Some(UpdateError(e.value));
    }
  }

  // ---------------------------------------------------------------------
  // UpdateAvatar.

  /** The file-name rule: a last dot that is neither first nor last, and a
      lower-cased suffix of jpg, jpeg or png. */
  function CheckFileName(name: string): (r: Option<StaffError>)
    ensures r.None? ==> (
      var dot := LastIndexOf(name, '.');
      && 0 < dot < |name| - 1
      && ToLower(name[dot + 1..]) in {"jpg", "jpeg", "png"})
  {
    var dot := LastIndexOf(name, '.');
    if dot <= 0 || dot == |name| - 1 then Some(NoExtension)
    else if ToLower(name[dot + 1..]) !in {"jpg", "jpeg", "png"} then Some(BadExtension)
    else None
  }

  /** The dot at `k` starts a dot-free extension that lower-cases to jpg,
      jpeg or png, after a non-empty stem. */
  predicate ImageDotAt(name: string, k: int) {
    && 0 < k < |name| && name[k] == '.' && '.' !in name[k + 1..]
    && ToLower(name[k + 1..]) in {"jpg", "jpeg", "png"}
  }

  /** A name passes exactly when some dot starts an image extension. */
  lemma CheckFileNameIff(name: string)
    ensures CheckFileName(name).None? <==> exists k :: ImageDotAt(name, k)
  {
    if CheckFileName(name).None? {
      PassedNameHasImageDot(name);
    } else if exists k :: ImageDotAt(name, k) {
      var k :| ImageDotAt(name, k);
      ImageDotPasses(name, k);
    }
  }

  lemma PassedNameHasImageDot(name: string)
    requires CheckFileName(name).None?
    ensures ImageDotAt(name, LastIndexOf(name, '.'))
  {
    var dot := LastIndexOf(name, '.');
    var ext := name[dot + 1..];
    assert '.' !in ext by {
      forall j | 0 <= j < |ext|
        ensures ext[j] != '.'
      {
        assert ext[j] == name[dot + 1 + j];
      }
    }
  }

  lemma ImageDotPasses(name: string, k: int)
    requires ImageDotAt(name, k)
    ensures CheckFileName(name).None?
  {
    var ext := name[k + 1..];
    forall j | k < j < |name|
      ensures name[j] != '.'
    {
      assert name[j] == ext[j - k - 1];
    }
    assert LastIndexOf(name, '.') == k;
    assert |ext| >= 3;
  }

  /** A name that passes the check has the extension `SaveAvatar` then
      keeps: a dot and the lower-cased suffix, one of the three listed. */
  lemma CheckedNameExt(name: string)
    requires CheckFileName(name).None?
    ensures TokenUtil.AvatarExt(name) == "." + ToLower(name[LastIndexOf(name, '.') + 1..])
    ensures TokenUtil.AllowedExt(TokenUtil.AvatarExt(name))
  {
    var dot := LastIndexOf(name, '.');
    var ext := name[dot + 1..];
    ListedExtLetters(ToLower(ext));
    LettersAfterDot(name, dot);
    TokenUtil.ExtAtLastDot(name, dot);
    assert name[dot..] == ['.'] + ext;
    ToLowerAppend(['.'], ext);
    DotListedAllowed(ToLower(ext));
  }

  lemma DotListedAllowed(ext: string)
    requires ext in {"jpg", "jpeg", "png"}
    ensures TokenUtil.AllowedExt("." + ext)
  {
  }

  lemma LettersAfterDot(name: string, dot: int)
    requires 0 <= dot < |name|
    requires Letters(ToLower(name[dot + 1..]))
    ensures forall i :: dot < i < |name| ==> name[i] != '.' && name[i] != '/'
  {
    var ext := name[dot + 1..];
    forall i | dot < i < |name|
      ensures name[i] != '.' && name[i] != '/'
    {
      assert name[i] == ext[i - dot - 1];
      assert IsLetter(ToLower(ext)[i - dot - 1]);
    }
  }

  predicate Letters(s: string) {
    forall j :: 0 <= j < |s| ==> IsLetter(s[j])
  }

  lemma ListedExtLetters(ext: string)
    requires ext in {"jpg", "jpeg", "png"}
    ensures Letters(ext)
  {
  }

  /** `UpdateAvatar`. `hasFile` says whether a file stream came with the
      request, `fileId` is the uuid naming the stored file, `content` the
      uploaded bytes, and `removedOld` whether deleting the previous file
      succeeded. */
  method UpdateAvatar(users: UserRepo.UserStore, uuid: string, hasFile: bool, fileName: string,
                      fileId: string, content: seq<byte>, removedOld: bool)
    returns (r: Result<string, StaffError>)
    requires users.Valid()
    modifies users
    ensures users.Valid() && users.nextId == old(users.nextId)
    ensures IsBlank(uuid) ==> r == Err(BlankUuid)
    ensures !IsBlank(uuid) && !hasFile ==> r == Err(NoFile)
    ensures !IsBlank(uuid) && hasFile && IsBlank(fileName) ==> r == Err(BlankFileName)
    ensures !IsBlank(uuid) && hasFile && !IsBlank(fileName) && CheckFileName(fileName).Some? ==>
      r == Err(CheckFileName(fileName).value)
    ensures (!IsBlank(uuid) && hasFile && CheckFileName(fileName).None? &&
             forall i :: i in old(users.rows) ==> old(users.rows)[i].uuid != uuid) ==> r == Err(UserNotFound)
    ensures forall id :: !IsBlank(uuid) && hasFile && CheckFileName(fileName).None? &&
                         UserRepo.HoldsUuid(old(users.rows), id, uuid) ==>
      var url := TokenUtil.AvatarBaseUrl + fileId + TokenUtil.AvatarExt(fileName);
      var before := old(users.rows)[id];
      var oldUrl := before.avatarUrl.GetOr("");
      && (|content| > TokenUtil.MaxAvatarSize ==> r == Err(SaveFailed(TokenUtil.TooLarge)))
      && (|content| == 0 ==> r == Err(SaveFailed(TokenUtil.EmptyContent)))
      && (0 < |content| <= TokenUtil.MaxAvatarSize && oldUrl != "" && oldUrl != DefaultAvatarUrl && !removedOld ==>
            r == Err(DeleteOldFailed))
      && (0 < |content| <= TokenUtil.MaxAvatarSize && (oldUrl == "" || oldUrl == DefaultAvatarUrl || removedOld) ==> (
            && (before.avatarUrl == Some(url) ==> r == Err(UpdateFailed(UserRepo.NotFoundOrUnchanged)))
            && (before.avatarUrl != Some(url) ==>
                  r == Ok(url) && users.rows == old(users.rows)[id := before.(avatarUrl := Some(url))])))
    ensures r.Err? ==> users.rows == old(users.rows)
    ensures r.Ok? ==> (
      && !IsBlank(uuid) && hasFile && CheckFileName(fileName).None?
      && 0 < |content| <= TokenUtil.MaxAvatarSize
      && r.value == TokenUtil.AvatarBaseUrl + fileId + TokenUtil.AvatarExt(fileName)
      && TokenUtil.AllowedExt(TokenUtil.AvatarExt(fileName))
      && exists id :: UserRepo.AvatarChanged(old(users.rows), users.rows, id, AvatarModel(uuid, r.value)))
  {
    TrimSpaceEmptyIff(uuid);
    TrimSpaceEmptyIff(fileName);
    if TrimSpace(uuid) == "" {
      return Err(BlankUuid);
    }
    if !hasFile {
      return Err(NoFile);
    }
    if TrimSpace(fileName) == "" {
      return Err(BlankFileName);
    }
    var nameErr := CheckFileName(fileName);
    if nameErr.Some? {
      return Err(nameErr.value);
    }
    CheckedNameExt(fileName);
    var current := users.GetUserByUuid(uuid);
    if current.Err? {
      return Err(if current.error == UserRepo.UserMissing then UserNotFound else LookupFailed(current.error));
    }
    ghost var id :| id in users.rows && users.rows[id].uuid == uuid &&
                    current.value == users.rows[id].(uuid := "", passwordHash := "");
    forall id' | UserRepo.HoldsUuid(users.rows, id', uuid)
      ensures id' == id
    {
      UserRepo.UuidNamesOneRow(users.rows, users.nextId, id', id, uuid);
    }
    var oldUrl := current.value.avatarUrl.GetOr("");
    // the name passed `CheckFileName`, so the listed and the loose
    // extension checks of `SaveAvatar` agree on it (`CheckedNameExt`)
    var saved := TokenUtil.SaveListedAvatar(true, fileName, fileId, content);
    if saved.Err? {
      return Err(SaveFailed(saved.error));
    }
    var newUrl := saved.value;
    if oldUrl != "" && oldUrl != DefaultAvatarUrl && !removedOld {
      return Err(DeleteOldFailed);
    }
    AvatarUrlFilled(fileId, TokenUtil.AvatarExt(fileName));
    ghost var before := users.rows;
    var model := AvatarModel(uuid, newUrl);
    assert UserRepo.HoldsUuid(users.rows, id, model.uuid) && UserRepo.Filled(model.avatarUrl);
    var e := users.UpdateAvatar(Some(model));
    if e.Some? {
      assert before[id].avatarUrl == Some(newUrl);
      return Err(UpdateFailed(e.value));
    }
    assert users.rows == before[id := before[id].(avatarUrl := Some(newUrl))];
    r := Ok(newUrl);
  }

  /** A stored avatar's URL is never blank: it starts with the base path. */
  lemma AvatarUrlFilled(fileId: string, ext: string)
    ensures TrimSpace(TokenUtil.AvatarBaseUrl + fileId + ext) != ""
  {
    var url := TokenUtil.AvatarBaseUrl + fileId + ext;
    assert url[0] == '/';
    TrimSpaceEmptyIff(url);
  }

  /** The `model.User` of the avatar update: the uuid and the new URL. */
  function AvatarModel(uuid: string, url: string): UserRepo.User {
    UserRepo.User(0, uuid, "", None, None, "", "", Some(url), None, None, None)
  }

  // ---------------------------------------------------------------------
  // GetUserByUuid.

  /** An eleven-byte phone shows its first three and last four bytes. */
  function MaskPhone(p: string): (r: string)
    ensures |r| == |p|
    ensures |p| != 11 ==> r == p
    ensures |p| == 11 ==> r[..3] == p[..3] && r[7..] == p[7..] && r[3..7] == "****"
  {
    if |p| == 11 then p[..3] + "****" + p[7..] else p
  }

  /** Masking a masked phone changes nothing. */
  lemma MaskPhoneIdempotent(p: string)
    ensures MaskPhone(MaskPhone(p)) == MaskPhone(p)
  {
    if |p| == 11 {
      var m := MaskPhone(p);
      assert m[..3] + "****" + m[7..] == m;
    }
  }

  /** `GetUserByUuid`: an empty uuid is refused; a found user comes back
      with the phone masked. The "not found" comparison in the source
      compares against a fresh error value and never matches, so every
      repository error is reported as a lookup failure. */
  function GetUserByUuid(users: UserRepo.UserStore, uuid: string): (r: Result<UserRepo.User, StaffError>)
    requires users.Valid()
    reads users
    ensures uuid == "" ==> r == Err(BlankUuid)
    ensures uuid != "" && (forall i :: i in users.rows ==> users.rows[i].uuid != uuid) ==>
      r == Err(LookupFailed(UserRepo.UserMissing))
    ensures r.Ok? ==> exists i :: (
      && i in users.rows && users.rows[i].uuid == uuid
      && r.value == users.rows[i].(uuid := "", passwordHash := "",
                                   phone := if users.rows[i].phone.Some? then Some(MaskPhone(users.rows[i].phone.value)) else None))
    ensures r.Ok? <==> uuid != "" && !(forall i :: i in users.rows ==> users.rows[i].uuid != uuid)
    ensures forall i :: uuid != "" && UserRepo.HoldsUuid(users.rows, i, uuid) ==>
      r == Ok(users.rows[i].(uuid := "", passwordHash := "",
                             phone := if users.rows[i].phone.Some? then Some(MaskPhone(users.rows[i].phone.value)) else None))
  {
    if uuid == "" then Err(BlankUuid)
    else match users.GetUserByUuid(uuid)
      case Err(e) => Err(LookupFailed(e))
      case Ok(u) => Ok(if u.phone.Some? then u.(phone := Some(MaskPhone(u.phone.value))) else u)
  }
}
