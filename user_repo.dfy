// The `users` table and its repository (internal/repository/user_repo.go).
module UserRepo {
  import opened Results
  import opened Text

  /** One `users` row (`model.User`); nullable columns are `Option`s. */
  datatype User = User(
    id: nat,
    uuid: string,
    username: string,
    email: Option<string>,
    phone: Option<string>,
    passwordHash: string,
    role: string,
    avatarUrl: Option<string>,
    realName: Option<string>,
    gender: Option<string>,
    birthDate: Option<string>)

  /** The unique indexes of `users`, in the order they are checked. */
  datatype Key = UuidKey | UsernameKey | EmailKey | PhoneKey

  /** The columns `UpdateUser` may set, in the order it considers them. */
  datatype Column = UsernameCol | EmailCol | PhoneCol | RealNameCol | GenderCol | BirthDateCol

  datatype UserRepoError =
    | NoCredential              // "未指定查询凭证"
    | DuplicateKey(key: Key)    // MySQL 1062
    | BlankUuid                 // "用户 UUID 不能为空"
    | NoFieldsToUpdate          // "无有效更新字段"
    | NotFoundOrUnchanged       // zero rows affected
    | BlankAvatar               // "头像URL不能为空"
    | UserMissing               // GetUserByUuid: "用户不存在"
    | UserIdMissing             // GetUserById: "用户ID不存在"

  type Table = map<nat, User>

  const DefaultRole: string := "candidate"

  /** The first unique index on which two rows collide (NULLs never collide). */
  function ClashKey(a: User, b: User): Option<Key> {
    if a.uuid == b.uuid then Some(UuidKey)
    else if a.username == b.username then Some(UsernameKey)
    else if a.email.Some? && a.email == b.email then Some(EmailKey)
    else if a.phone.Some? && a.phone == b.phone then Some(PhoneKey)
    else None
  }

  ghost predicate KeysUnique(t: Table) {
    forall i, j :: i in t && j in t && i != j ==> ClashKey(t[i], t[j]).None?
  }

  /** Rows that hold different values in all four unique columns may coexist. */
  lemma ClashSymmetric(a: User, b: User)
    ensures ClashKey(a, b).None? <==> ClashKey(b, a).None?
  {
  }

  /** Writing a row that collides with no other row keeps the indexes unique. */
  lemma PutKeepsUnique(t: Table, id: nat, u: User)
    requires KeysUnique(t)
    requires forall i :: i in t && i != id ==> ClashKey(t[i], u).None?
    ensures KeysUnique(t[id := u])
  {
    var t' := t[id := u];
    forall i, j | i in t' && j in t' && i != j
      ensures ClashKey(t'[i], t'[j]).None?
    {
      if j == id {
      } else if i == id {
        ClashSymmetric(t[j], u);
      }
    }
  }

  /** Every row is stored under its own id, below `nextId`, and the four
      unique indexes hold. */
  ghost predicate TableOk(t: Table, nextId: nat) {
    && (forall i :: i in t ==> 1 <= i < nextId && t[i].id == i)
    && KeysUnique(t)
  }

  /** Writing a row `id` below `n'` that collides with no other row keeps
      the table well formed (`n'` may move past `n` for an insert). */
  lemma PutKeepsTable(t: Table, n: nat, n': nat, id: nat, u: User)
    requires TableOk(t, n) && n <= n' && 1 <= id < n' && u.id == id
    requires forall i :: i in t && i != id ==> ClashKey(t[i], u).None?
    ensures TableOk(t[id := u], n')
  {
    PutKeepsUnique(t, id, u);
  }

  /** Rewriting a row without touching its id or its four unique columns
      keeps the table well formed. */
  lemma SameKeysKeepTable(t: Table, n: nat, id: nat, u: User)
    requires TableOk(t, n) && id in t && u.id == id
    requires u.uuid == t[id].uuid && u.username == t[id].username
    requires u.email == t[id].email && u.phone == t[id].phone
    ensures TableOk(t[id := u], n)
  {
    forall i | i in t && i != id
      ensures ClashKey(t[i], u).None?
    {
      assert ClashKey(t[i], u) == ClashKey(t[i], t[id]);
    }
    PutKeepsTable(t, n, n, id, u);
  }

  /** The unique index that writing `u` as row `self` would violate, if any. */
  function Conflict(t: Table, u: User, self: nat): (r: Option<Key>)
    ensures r.None? <==> forall i :: i in t && i != self ==> ClashKey(t[i], u).None?
  {
    if exists i | i in t && i != self :: t[i].uuid == u.uuid then Some(UuidKey)
    else if exists i | i in t && i != self :: t[i].username == u.username then Some(UsernameKey)
    else if u.email.Some? && exists i | i in t && i != self :: t[i].email == u.email then Some(EmailKey)
    else if u.phone.Some? && exists i | i in t && i != self :: t[i].phone == u.phone then Some(PhoneKey)
    else None
  }

  /** The lowest id in 1..n whose row satisfies `p` (a `SELECT ... LIMIT 1`). */
  function FindId(t: Table, n: nat, p: User -> bool): (r: Option<nat>)
    ensures r.Some? ==> 1 <= r.value <= n && r.value in t && p(t[r.value])
    ensures r.Some? ==> forall i :: 1 <= i < r.value && i in t ==> !p(t[i])
    ensures r.None? ==> forall i :: 1 <= i <= n && i in t ==> !p(t[i])
  {
    if n == 0 then None
    else
      var r := FindId(t, n - 1, p);
      if r.Some? then r
      else if n in t && p(t[n]) then Some(n)
      else None
  }

  // ---------------------------------------------------------------------
  // The change set of UpdateUser.

  /** The value of column `c` in a row (`username` is never NULL). */
  function Get(r: User, c: Column): Option<string> {
    match c
    case UsernameCol => Some(r.username)
    case EmailCol => r.email
    case PhoneCol => r.phone
    case RealNameCol => r.realName
    case GenderCol => r.gender
    case BirthDateCol => r.birthDate
  }

  /** A field value that is given and not blank. */
  predicate Filled(v: Option<string>) {
    v.Some? && TrimSpace(v.value) != ""
  }

  /** A field joins the change set only when it is given and not blank. */
  predicate Present(u: User, c: Column) {
    Filled(Get(u, c))
  }

  /** `SET c = v` on one row. */
  function Set(r: User, c: Column, v: string): (r': User)
    ensures Get(r', c) == Some(v)
    ensures forall d :: d != c ==> Get(r', d) == Get(r, d)
    ensures r'.id == r.id && r'.uuid == r.uuid && r'.passwordHash == r.passwordHash
    ensures r'.role == r.role && r'.avatarUrl == r.avatarUrl
  {
    match c
    case UsernameCol => r.(username := v)
    case EmailCol => r.(email := Some(v))
    case PhoneCol => r.(phone := Some(v))
    case RealNameCol => r.(realName := Some(v))
    case GenderCol => r.(gender := Some(v))
    case BirthDateCol => r.(birthDate := Some(v))
  }

  /** The set clauses `cols[i] = args[i]`, applied left to right. */
  function Assign(r: User, cols: seq<Column>, args: seq<string>): User
    requires |cols| == |args|
    decreases |cols|
  {
    if cols == [] then r else Assign(Set(r, cols[0], args[0]), cols[1..], args[1..])
  }

  function Rank(c: Column): (r: nat)
    ensures r < 6
  {
    match c
    case UsernameCol => 0
    case EmailCol => 1
    case PhoneCol => 2
    case RealNameCol => 3
    case GenderCol => 4
    case BirthDateCol => 5
  }

  predicate InColumnOrder(cols: seq<Column>) {
    forall i, j :: 0 <= i < j < |cols| ==> Rank(cols[i]) < Rank(cols[j])
  }

  lemma RankInjective(c: Column, d: Column)
    ensures Rank(c) == Rank(d) ==> c == d
  {
  }

  /** `cols`/`args` hold exactly the present columns ranked below `k`, in
      order, each with the field's value. */
  ghost predicate ClausesBefore(u: User, cols: seq<Column>, args: seq<string>, k: nat) {
    && |cols| == |args| && InColumnOrder(cols)
    && (forall i :: 0 <= i < |cols| ==> Rank(cols[i]) < k && Some(args[i]) == Get(u, cols[i]))
    && (forall c :: Rank(c) < k ==> (c in cols <==> Present(u, c)))
  }

  /** A column not yet considered is not listed, and is the only column of
      its rank. */
  lemma NotYetListed(u: User, cols: seq<Column>, args: seq<string>, c: Column)
    requires ClausesBefore(u, cols, args, Rank(c))
    ensures c !in cols
    ensures forall d :: Rank(d) < Rank(c) + 1 && d != c ==> Rank(d) < Rank(c)
  {
    forall d | Rank(d) < Rank(c) + 1 && d != c
      ensures Rank(d) < Rank(c)
    {
      RankInjective(c, d);
    }
  }

  /** Skipping an absent column `c` moves the boundary past it. */
  lemma ClauseSkip(u: User, cols: seq<Column>, args: seq<string>, c: Column)
    requires ClausesBefore(u, cols, args, Rank(c)) && !Present(u, c)
    ensures ClausesBefore(u, cols, args, Rank(c) + 1)
  {
    NotYetListed(u, cols, args, c);
  }

  /** Appending a present column `c` with its value moves the boundary past it. */
  lemma ClauseAdd(u: User, cols: seq<Column>, args: seq<string>, c: Column, v: string)
    requires ClausesBefore(u, cols, args, Rank(c))
    requires Present(u, c) && Get(u, c) == Some(v)
    ensures ClausesBefore(u, cols + [c], args + [v], Rank(c) + 1)
  {
    NotYetListed(u, cols, args, c);
    var cols', args' := cols + [c], args + [v];
    forall i | 0 <= i < |cols'|
      ensures Rank(cols'[i]) < Rank(c) + 1 && Some(args'[i]) == Get(u, cols'[i])
    {
      if i < |cols| {
        assert cols'[i] == cols[i] && args'[i] == args[i];
      }
    }
    forall i, j | 0 <= i < j < |cols'|
      ensures Rank(cols'[i]) < Rank(cols'[j])
    {
      assert cols'[i] == cols[i];
      if j < |cols| {
        assert cols'[j] == cols[j];
      }
    }
    forall d | Rank(d) < Rank(c) + 1
      ensures d in cols' <==> Present(u, d)
    {
      if d == c {
        assert cols'[|cols|] == c;
      } else {
        assert d in cols' <==> d in cols;
      }
    }
  }

  /** Once all six columns are considered, the list is the whole change set. */
  lemma ClausesComplete(u: User, cols: seq<Column>, args: seq<string>)
    requires ClausesBefore(u, cols, args, 6)
    ensures |args| == |cols| && InColumnOrder(cols)
    ensures forall c :: c in cols <==> Present(u, c)
    ensures forall i :: 0 <= i < |cols| ==> Some(args[i]) == Get(u, cols[i])
  {
  }

  /** Set clauses over distinct columns give each listed column its argument
      and leave every other column, and every non-column field, alone. */
  lemma {:induction false} AssignGet(r: User, cols: seq<Column>, args: seq<string>, c: Column)
    requires |cols| == |args| && InColumnOrder(cols)
    ensures var r' := Assign(r, cols, args);
      && (forall i :: 0 <= i < |cols| && cols[i] == c ==> Get(r', c) == Some(args[i]))
      && (c !in cols ==> Get(r', c) == Get(r, c))
      && r'.id == r.id && r'.uuid == r.uuid && r'.passwordHash == r.passwordHash
      && r'.role == r.role && r'.avatarUrl == r.avatarUrl
    decreases |cols|
  {
    if cols != [] {
      assert InColumnOrder(cols[1..]);
      AssignGet(Set(r, cols[0], args[0]), cols[1..], args[1..], c);
      forall i | 0 <= i < |cols| && cols[i] == c
        ensures Get(Assign(r, cols, args), c) == Some(args[i])
      {
        if i == 0 {
          assert c !in cols[1..];
        } else {
          assert cols[1..][i - 1] == c;
        }
      }
    }
  }

  /** Row `id`, the one holding `u.uuid`, is the only row that changed: each
      present field of `u` was written to it, and nothing else of it. */
  ghost predicate Updated(t: Table, t': Table, id: nat, u: User) {
    && id in t && id in t' && t[id].uuid == u.uuid
    && t' == t[id := t'[id]]
    && t'[id] != t[id]
    && (forall c :: Get(t'[id], c) == if Present(u, c) then Get(u, c) else Get(t[id], c))
    && t'[id].id == id && t'[id].uuid == t[id].uuid && t'[id].passwordHash == t[id].passwordHash
    && t'[id].role == t[id].role && t'[id].avatarUrl == t[id].avatarUrl
  }

  /** Row `id`, the one holding `u.uuid`, changed its avatar to `u`'s and
      nothing else changed. */
  ghost predicate AvatarChanged(t: Table, t': Table, id: nat, u: User) {
    && id in t && t[id].uuid == u.uuid
    && t' == t[id := t[id].(avatarUrl := u.avatarUrl)]
    && t[id].avatarUrl != u.avatarUrl
  }

  /** The row `r` once the change set of `u` is written to it. */
  function ApplyChanges(r: User, u: User): (r': User)
    ensures r'.id == r.id && r'.uuid == r.uuid && r'.passwordHash == r.passwordHash
    ensures r'.role == r.role && r'.avatarUrl == r.avatarUrl
  {
    r.(username := if Present(u, UsernameCol) then u.username else r.username,
       email := if Present(u, EmailCol) then u.email else r.email,
       phone := if Present(u, PhoneCol) then u.phone else r.phone,
       realName := if Present(u, RealNameCol) then u.realName else r.realName,
       gender := if Present(u, GenderCol) then u.gender else r.gender,
       birthDate := if Present(u, BirthDateCol) then u.birthDate else r.birthDate)
  }

  /** `ApplyChanges` writes each present field of `u` and keeps every
      other column. */
  lemma ApplyChangesGet(r: User, u: User, c: Column)
    ensures Get(ApplyChanges(r, u), c) == if Present(u, c) then Get(u, c) else Get(r, c)
  {
    match c
    case UsernameCol =>
    case EmailCol =>
    case PhoneCol =>
    case RealNameCol =>
    case GenderCol =>
    case BirthDateCol =>
  }

  /** At least one field of `u` joins the change set. */
  predicate HasChanges(u: User) {
    Present(u, UsernameCol) || Present(u, EmailCol) || Present(u, PhoneCol) ||
    Present(u, RealNameCol) || Present(u, GenderCol) || Present(u, BirthDateCol)
  }

  /** Row `id` exists and holds `uuid`. */
  predicate HoldsUuid(t: Table, id: nat, uuid: string) {
    id in t && t[id].uuid == uuid
  }

  /** The uuid index is unique, so at most one row holds a uuid. */
  lemma UuidNamesOneRow(t: Table, n: nat, i: nat, j: nat, uuid: string)
    requires TableOk(t, n) && HoldsUuid(t, i, uuid) && HoldsUuid(t, j, uuid)
    ensures i == j
  {
  }

  /** Running the change set of `u` as set clauses on a row writes every
      present field of `u` and nothing else. */
  lemma ChangeSetWrites(r: User, u: User, cols: seq<Column>, args: seq<string>)
    requires |args| == |cols| && InColumnOrder(cols)
    requires forall c :: c in cols <==> Present(u, c)
    requires forall i :: 0 <= i < |cols| ==> Some(args[i]) == Get(u, cols[i])
    ensures var r' := Assign(r, cols, args);
      && (forall c :: Get(r', c) == if Present(u, c) then Get(u, c) else Get(r, c))
      && r'.id == r.id && r'.uuid == r.uuid && r'.passwordHash == r.passwordHash
      && r'.role == r.role && r'.avatarUrl == r.avatarUrl
  {
    forall c
      ensures Get(Assign(r, cols, args), c) == if Present(u, c) then Get(u, c) else Get(r, c)
    {
      AssignGet(r, cols, args, c);
      if Present(u, c) {
        var i :| 0 <= i < |cols| && cols[i] == c;
      }
    }
    AssignGet(r, cols, args, UsernameCol);
  }

  // ---------------------------------------------------------------------
  // The repository.

  class UserStore {
    var rows: Table
    var nextId: nat

    ghost predicate Valid()
      reads this
    {
      nextId >= 1 && TableOk(rows, nextId)
    }

    constructor ()
      ensures Valid() && rows == map[]
    {
      rows := map[];
      nextId := 1;
    }

    /** The row matching `p`, if any. */
    function Lookup(p: User -> bool): (r: Option<User>)
      requires Valid()
      reads this
      ensures r.Some? ==> p(r.value) && r.value in rows.Values
      ensures r.None? ==> forall i :: i in rows ==> !p(rows[i])
    {
      match FindId(rows, nextId - 1, p)
      case Some(i) => Some(rows[i])
      case None => None
    }

    /** `GetUserByCredential`: by username when given, else by phone, else
        by email; no credential is an error, no match is "absent". */
    function GetUserByCredential(username: string, phone: string, email: string): (r: Result<Option<User>, UserRepoError>)
      requires Valid()
      reads this
      ensures r.Err? <==> username == "" && phone == "" && email == ""
      ensures r.Err? ==> r.error == NoCredential
      ensures username != "" && r.Ok? ==>
        if r.value.Some? then r.value.value.username == username && r.value.value in rows.Values
        else forall i :: i in rows ==> rows[i].username != username
      ensures username == "" && phone != "" && r.Ok? ==>
        if r.value.Some? then r.value.value.phone == Some(phone) && r.value.value in rows.Values
        else forall i :: i in rows ==> rows[i].phone != Some(phone)
      ensures username == "" && phone == "" && email != "" && r.Ok? ==>
        if r.value.Some? then r.value.value.email == Some(email) && r.value.value in rows.Values
        else forall i :: i in rows ==> rows[i].email != Some(email)
    {
      if username != "" then Ok(Lookup((u: User) => u.username == username))
      else if phone != "" then Ok(Lookup((u: User) => u.phone == Some(phone)))
      else if email != "" then Ok(Lookup((u: User) => u.email == Some(email)))
      else Err(NoCredential)
    }

    /** `GetUserByUuid`: the row without the two columns its SELECT omits
        (uuid and password_hash read back empty); no row is an error. */
    function GetUserByUuid(uuid: string): (r: Result<User, UserRepoError>)
      requires Valid()
      reads this
      ensures r.Err? <==> forall i :: i in rows ==> rows[i].uuid != uuid
      ensures r.Err? ==> r.error == UserMissing
      ensures r.Ok? ==> exists i :: i in rows && rows[i].uuid == uuid && r.value == rows[i].(uuid := "", passwordHash := "")
    {
      match Lookup((u: User) => u.uuid == uuid)
      case Some(u) => Ok(u.(uuid := "", passwordHash := ""))
      case None => Err(UserMissing)
    }

    /** `GetUserById`: the row with that id, or "用户ID不存在". */
    function GetUserById(id: nat): (r: Result<User, UserRepoError>)
      requires Valid()
      reads this
      ensures r.Ok? <==> id in rows
      ensures r.Ok? ==> r.value == rows[id] && r.value.id == id
      ensures r.Err? ==> r.error == UserIdMissing
    {
      if id in rows then Ok(rows[id]) else Err(UserIdMissing)
    }

    /** `CheckUsernameExist`: `COUNT(*) > 0`. */
    predicate CheckUsernameExist(username: string)
      reads this
    {
      exists i | i in rows :: rows[i].username == username
    }

    /** `CheckEmailExist`: a row whose (non-NULL) email equals `email`. */
    predicate CheckEmailExist(email: string)
      reads this
    {
      exists i | i in rows :: rows[i].email == Some(email)
    }

    /** `CheckPhoneExist`: a row whose (non-NULL) phone equals `phone`. */
    predicate CheckPhoneExist(phone: string)
      reads this
    {
      exists i | i in rows :: rows[i].phone == Some(phone)
    }

    /** Each `COUNT` check answers yes exactly when the matching `SELECT` of
        `GetUserByCredential` finds a row. */
    lemma ExistMatchesLookup(username: string, phone: string, email: string)
      requires Valid()
      ensures username != "" ==>
        (CheckUsernameExist(username) <==> GetUserByCredential(username, "", "") != Ok(None))
      ensures phone != "" ==>
        (CheckPhoneExist(phone) <==> GetUserByCredential("", phone, "") != Ok(None))
      ensures email != "" ==>
        (CheckEmailExist(email) <==> GetUserByCredential("", "", email) != Ok(None))
    {
    }

    /** `CreateUser`: a blank role is stored as "candidate"; a unique-index
        collision is refused and nothing is stored; otherwise the row is
        inserted and the caller's user comes back carrying its new
        auto-increment id and nothing else changed (the defaulted role lives
        only in a local of the source). A refused insert still uses up its
        auto-increment value, as in InnoDB. */
    method CreateUser(user: User) returns (r: Result<User, UserRepoError>)
      requires Valid()
      modifies this
      ensures Valid() && nextId == old(nextId) + 1
      ensures var stored := user.(id := old(nextId), role := if TrimSpace(user.role) == "" then DefaultRole else user.role);
        && (r.Err? <==> Conflict(old(rows), stored, 0).Some?)
        && (r.Err? ==> r.error == DuplicateKey(Conflict(old(rows), stored, 0).value) && rows == old(rows))
        && (r.Ok? ==> r.value == user.(id := old(nextId)) && rows == old(rows)[old(nextId) := stored] && old(nextId) !in old(rows))
    {
      var role := user.role;
      if TrimSpace(role) == "" {
        role := DefaultRole;
      }
      var stored := user.(id := nextId, role := role);
      var clash := Conflict(rows, stored, 0);
      if clash.Some? {
        nextId := nextId + 1;
        return Err(DuplicateKey(clash.value));
      }
      PutKeepsTable(rows, nextId, nextId + 1, nextId, stored);
      rows := rows[nextId := stored];
      r := Ok(user.(id := nextId));
      nextId := nextId + 1;
    }

    /** Undoes an insert of this transaction (the auto-increment counter is
        not given back, as in InnoDB). */
    method RollbackInsert(id: nat)
      requires Valid()
      modifies this
      ensures Valid() && nextId == old(nextId)
      ensures rows == old(rows) - {id}
    {
      rows := rows - {id};
    }

    /** One `if field != nil && strings.TrimSpace(*field) != ""` block of
        `UpdateUser`: appends the clause `c = ?` and its argument. */
    static method AddClause(ghost u: User, cols: seq<Column>, args: seq<string>, c: Column, field: Option<string>)
      returns (cols': seq<Column>, args': seq<string>)
      requires ClausesBefore(u, cols, args, Rank(c)) && field == Get(u, c)
      ensures cols' == if Present(u, c) then cols + [c] else cols
      ensures ClausesBefore(u, cols', args', Rank(c) + 1)
    {
      if field.Some? && TrimSpace(field.value) != "" {
        ClauseAdd(u, cols, args, c, field.value);
        cols', args' := cols + [c], args + [field.value];
      } else {
        ClauseSkip(u, cols, args, c);
        cols', args' := cols, args;
      }
    }

    /** The set clauses of `UpdateUser`, built field by field. */
    static method BuildSetClauses(user: User) returns (cols: seq<Column>, args: seq<string>)
      ensures |args| == |cols|
      ensures forall c :: c in cols <==> Present(user, c)
      ensures InColumnOrder(cols)
      ensures forall i :: 0 <= i < |cols| ==> Some(args[i]) == Get(user, cols[i])
    {
      cols, args := [], [];
      cols, args := AddClause(user, cols, args, UsernameCol, Some(user.username));
      cols, args := AddClause(user, cols, args, EmailCol, user.email);
      cols, args := AddClause(user, cols, args, PhoneCol, user.phone);
      cols, args := AddClause(user, cols, args, RealNameCol, user.realName);
      cols, args := AddClause(user, cols, args, GenderCol, user.gender);
      cols, args := AddClause(user, cols, args, BirthDateCol, user.birthDate);
      ClausesComplete(user, cols, args);
    }

    /** `UpdateUser`: `UPDATE users SET <change set> WHERE uuid = ? LIMIT 1`.
        A blank uuid or an empty change set is refused first; then no row
        with the uuid, or a row the change set leaves as it was, affects
        zero rows; a change set that collides with another row on a unique
        index is a duplicate entry; otherwise exactly that row changes. */
    method UpdateUser(user: Option<User>) returns (err: Option<UserRepoError>)
      requires Valid()
      modifies this
      ensures Valid() && nextId == old(nextId)
      ensures user.None? || TrimSpace(user.value.uuid) == "" ==> err == Some(BlankUuid)
      ensures user.Some? && TrimSpace(user.value.uuid) != "" && !HasChanges(user.value) ==>
        err == Some(NoFieldsToUpdate)
      ensures user.Some? && TrimSpace(user.value.uuid) != "" && HasChanges(user.value) &&
              (forall i :: i in old(rows) ==> old(rows)[i].uuid != user.value.uuid) ==>
        err == Some(NotFoundOrUnchanged)
      ensures forall id :: user.Some? && TrimSpace(user.value.uuid) != "" && HasChanges(user.value) &&
                           HoldsUuid(old(rows), id, user.value.uuid) ==>
        var before := old(rows)[id];
        var after := ApplyChanges(before, user.value);
        && (Conflict(old(rows), after, id).Some? ==> err == Some(DuplicateKey(Conflict(old(rows), after, id).value)))
        && (Conflict(old(rows), after, id).None? && after == before ==> err == Some(NotFoundOrUnchanged))
        && (Conflict(old(rows), after, id).None? && after != before ==> err.None? && rows == old(rows)[id := after])
      ensures err.Some? ==> rows == old(rows)
      ensures err.None? ==> user.Some? && exists id :: Updated(old(rows), rows, id, user.value)
    {
      if user.None? || TrimSpace(user.value.uuid) == "" {
        return Some(BlankUuid);
      }
      var u := user.value;
      var cols, args := BuildSetClauses(u);
      if |cols| == 0 {
        return Some(NoFieldsToUpdate);
      }
      assert Present(u, cols[0]);
      var sqlArgs := args + [u.uuid];
      var whereUuid := sqlArgs[|cols|];
      var found := FindId(rows, nextId - 1, (r: User) => r.uuid == whereUuid);
      if found.None? {
        return Some(NotFoundOrUnchanged);
      }
      var id := found.value;
      forall id' | HoldsUuid(rows, id', u.uuid)
        ensures id' == id
      {
        UuidNamesOneRow(rows, nextId, id', id, u.uuid);
      }
      var before := rows[id];
      assert sqlArgs[..|cols|] == args;
      var after := Assign(before, cols, sqlArgs[..|cols|]);
      ChangeSetWrites(before, u, cols, args);
      assert after == ApplyChanges(before, u) by {
        var spec := ApplyChanges(before, u);
        forall c
          ensures Get(spec, c) == if Present(u, c) then Get(u, c) else Get(before, c)
        {
          ApplyChangesGet(before, u, c);
        }
        assert Get(after, UsernameCol) == Get(spec, UsernameCol);
        assert Get(after, EmailCol) == Get(spec, EmailCol);
        assert Get(after, PhoneCol) == Get(spec, PhoneCol);
        assert Get(after, RealNameCol) == Get(spec, RealNameCol);
        assert Get(after, GenderCol) == Get(spec, GenderCol);
        assert Get(after, BirthDateCol) == Get(spec, BirthDateCol);
      }
      var clash := Conflict(rows, after, id);
      if clash.Some? {
        return Some(DuplicateKey(clash.value));
      }
      if after == before {
        // MySQL counts changed rows: an update that changes nothing affects 0 rows
        return Some(NotFoundOrUnchanged);
      }
      PutKeepsTable(rows, nextId, nextId, id, after);
      rows := rows[id := after];
      assert Updated(old(rows), rows, id, u);
      err := None;
    }

    /** `UpdateAvatar`: the two guards, then `SET avatar_url = ? WHERE uuid = ?`;
        no row with the uuid, or a row already holding that URL, affects zero
        rows, and otherwise exactly that row's avatar changes. */
    method UpdateAvatar(user: Option<User>) returns (err: Option<UserRepoError>)
      requires Valid()
      modifies this
      ensures Valid() && nextId == old(nextId)
      ensures user.None? || TrimSpace(user.value.uuid) == "" ==> err == Some(BlankUuid)
      ensures (user.Some? && TrimSpace(user.value.uuid) != "" &&
               (user.value.avatarUrl.None? || TrimSpace(user.value.avatarUrl.value) == "")) ==> err == Some(BlankAvatar)
      ensures user.Some? && TrimSpace(user.value.uuid) != "" && Filled(user.value.avatarUrl) &&
              (forall i :: i in old(rows) ==> old(rows)[i].uuid != user.value.uuid) ==>
        err == Some(NotFoundOrUnchanged)
      ensures forall id :: user.Some? && TrimSpace(user.value.uuid) != "" && Filled(user.value.avatarUrl) &&
                           HoldsUuid(old(rows), id, user.value.uuid) ==>
        && (old(rows)[id].avatarUrl == user.value.avatarUrl ==> err == Some(NotFoundOrUnchanged))
        && (old(rows)[id].avatarUrl != user.value.avatarUrl ==>
              err.None? && rows == old(rows)[id := old(rows)[id].(avatarUrl := user.value.avatarUrl)])
      ensures err.Some? ==> rows == old(rows)
      ensures err.None? ==> user.Some? && exists id :: AvatarChanged(old(rows), rows, id, user.value)
    {
      if user.None? || TrimSpace(user.value.uuid) == "" {
        return Some(BlankUuid);
      }
      var u := user.value;
      if u.avatarUrl.None? || TrimSpace(u.avatarUrl.value) == "" {
        return Some(BlankAvatar);
      }
      var found := FindId(rows, nextId - 1, (r: User) => r.uuid == u.uuid);
      if found.None? {
        return Some(NotFoundOrUnchanged);
      }
      var id := found.value;
      forall id' | HoldsUuid(rows, id', u.uuid)
        ensures id' == id
      {
        UuidNamesOneRow(rows, nextId, id', id, u.uuid);
      }
      var after := rows[id].(avatarUrl := u.avatarUrl);
      if after == rows[id] {
        return Some(NotFoundOrUnchanged);
      }
      SameKeysKeepTable(rows, nextId, id, after);
      rows := rows[id := after];
      assert AvatarChanged(old(rows), rows, id, u);
      err := None;
    }
  }
}
