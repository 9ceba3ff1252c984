// The wallet service over the ledger and the user table
// (internal/service/account_ser.go).
module AccountService {
  import opened Results
  import AccountRepo
  import UserRepo

  /** `dto.AccountResponse`: the four figures shown to the client. */
  datatype AccountResponse = AccountResponse(userUuid: string, balance: int, totalRecharge: int, totalConsume: int)

  datatype ServiceError =
    | EmptyUuid                                   // "用户UUID不能为空"
    | NonPositiveRecharge                         // "充值金额必须大于0"
    | NonPositiveDeduct                           // "扣减金额必须大于0"
    | UserNotFound(lookup: UserRepo.UserRepoError) // "用户不存在：..."
    | CreateFailed(cause: AccountRepo.RepoError)  // "创建账户失败：..."
    | RechargeFailed(cause: AccountRepo.RepoError)// "充值操作失败：..."
    | DeductFailed(cause: AccountRepo.RepoError)  // "扣减余额失败：..."
    | AccountNotFound                             // "未查询到用户账户信息"

  /** The response built from a ledger row. */
  function Snapshot(a: AccountRepo.Account): (r: AccountResponse)
    ensures r.userUuid == a.userUuid && r.balance == a.balance
    ensures r.totalRecharge == a.totalRecharge && r.totalConsume == a.totalConsume
  {
    AccountResponse(a.userUuid, a.balance, a.totalRecharge, a.totalConsume)
  }

  /** A user row carries this uuid. */
  ghost predicate UserExists(users: UserRepo.Table, uuid: string) {
    exists i :: i in users && users[i].uuid == uuid
  }

  /** `CreateAccount`: an empty uuid is refused; otherwise the repository
      insert runs and its failure is wrapped. */
  method CreateAccount(accounts: AccountRepo.AccountStore, uuid: string) returns (err: Option<ServiceError>)
    requires accounts.Valid()
    modifies accounts
    ensures accounts.Valid()
    ensures accounts.nextId == old(accounts.nextId) + (if uuid == "" then 0 else 1)
    ensures err.None? <==> uuid != "" && uuid !in old(accounts.rows)
    ensures uuid == "" ==> err == Some(EmptyUuid)
    ensures uuid != "" && uuid in old(accounts.rows) ==> err == Some(CreateFailed(AccountRepo.DuplicateUuid))
    ensures err.Some? ==> accounts.rows == old(accounts.rows)
    ensures err.None? ==> accounts.rows == old(accounts.rows)[uuid := AccountRepo.Account(old(accounts.nextId), uuid, 0, 0, 0)]
  {
    if uuid == "" {
      return Some(EmptyUuid);
    }
    var e := accounts.CreateAccount(uuid);
    if e.Some? {
      return Some(CreateFailed(e.value));
    }
    err := None;
  }

  /** `Recharge`: the two argument checks, the user check, the repository
      update, and the row read back as the response. */
  method Recharge(accounts: AccountRepo.AccountStore, users: UserRepo.UserStore, uuid: string, amount: int)
    returns (r: Result<AccountResponse, ServiceError>)
    requires accounts.Valid() && users.Valid()
    modifies accounts
    ensures accounts.Valid()
    ensures uuid == "" ==> r == Err(EmptyUuid)
    ensures uuid != "" && amount <= 0 ==> r == Err(NonPositiveRecharge)
    ensures uuid != "" && amount > 0 && !UserExists(users.rows, uuid) ==> r == Err(UserNotFound(UserRepo.UserMissing))
    ensures uuid != "" && amount > 0 && UserExists(users.rows, uuid) && uuid !in old(accounts.rows) ==>
      r == Err(RechargeFailed(AccountRepo.AccountMissing))
    ensures r.Ok? <==> uuid != "" && amount > 0 && UserExists(users.rows, uuid) && uuid in old(accounts.rows)
    ensures r.Err? ==> accounts.rows == old(accounts.rows)
    ensures r.Ok? ==> accounts.rows == AccountRepo.Recharge(old(accounts.rows), uuid, amount).value
    ensures r.Ok? ==> (
      && r.value.userUuid == uuid
      && r.value.balance == old(accounts.rows)[uuid].balance + amount
      && r.value.totalRecharge == old(accounts.rows)[uuid].totalRecharge + amount
      && r.value.totalConsume == old(accounts.rows)[uuid].totalConsume)
  {
    if uuid == "" {
      return Err(EmptyUuid);
    }
    if amount <= 0 {
      return Err(NonPositiveRecharge);
    }
    var user := users.GetUserByUuid(uuid);
    if user.Err? {
      return Err(UserNotFound(user.error));
    }
    var e := accounts.RechargeBalance(uuid, amount);
    if e.Some? {
      return Err(RechargeFailed(e.value));
    }
    // the row was just updated, so the read-back finds it
    r := Ok(Snapshot(accounts.rows[uuid]));
  }

  /** `Deduct`: the two argument checks, the user check, the repository
      deduction (which refuses an overdraft), and the row read back. */
  method Deduct(accounts: AccountRepo.AccountStore, users: UserRepo.UserStore, uuid: string, amount: int)
    returns (r: Result<AccountResponse, ServiceError>)
    requires accounts.Valid() && users.Valid()
    modifies accounts
    ensures accounts.Valid()
    ensures uuid == "" ==> r == Err(EmptyUuid)
    ensures uuid != "" && amount <= 0 ==> r == Err(NonPositiveDeduct)
    ensures uuid != "" && amount > 0 && !UserExists(users.rows, uuid) ==> r == Err(UserNotFound(UserRepo.UserMissing))
    ensures uuid != "" && amount > 0 && UserExists(users.rows, uuid) && uuid in old(accounts.rows)
            && old(accounts.rows)[uuid].balance < amount ==>
      r == Err(DeductFailed(AccountRepo.InsufficientFunds(old(accounts.rows)[uuid].balance, amount)))
    ensures r.Ok? <==> uuid != "" && amount > 0 && UserExists(users.rows, uuid) && uuid in old(accounts.rows)
                       && amount <= old(accounts.rows)[uuid].balance
    ensures r.Err? ==> accounts.rows == old(accounts.rows)
    ensures r.Ok? ==> accounts.rows == AccountRepo.Deduct(old(accounts.rows), uuid, amount).value
    ensures r.Ok? ==> (
      && r.value.userUuid == uuid && r.value.balance >= 0
      && r.value.balance == old(accounts.rows)[uuid].balance - amount
      && r.value.totalConsume == old(accounts.rows)[uuid].totalConsume + amount
      && r.value.totalRecharge == old(accounts.rows)[uuid].totalRecharge)
  {
    if uuid == "" {
      return Err(EmptyUuid);
    }
    if amount <= 0 {
      return Err(NonPositiveDeduct);
    }
    var user := users.GetUserByUuid(uuid);
    if user.Err? {
      return Err(UserNotFound(user.error));
    }
    var e := accounts.DeductBalance(uuid, amount);
    if e.Some? {
      return Err(DeductFailed(e.value));
    }
    // the row was just updated, so the read-back finds it
    r := Ok(Snapshot(accounts.rows[uuid]));
  }

  /** `GetAccountByUserUUID`: an empty uuid and a missing account are
      errors; a found account satisfies the ledger rule. */
  function GetAccountByUserUUID(accounts: AccountRepo.AccountStore, uuid: string): (r: Result<AccountResponse, ServiceError>)
    requires accounts.Valid()
    reads accounts
    ensures uuid == "" ==> r == Err(EmptyUuid)
    ensures uuid != "" && uuid !in accounts.rows ==> r == Err(AccountNotFound)
    ensures r.Ok? <==> uuid != "" && uuid in accounts.rows
    ensures r.Ok? ==> r.value == Snapshot(accounts.rows[uuid])
    ensures r.Ok? ==> r.value.userUuid == uuid && r.value.balance >= 0
                      && r.value.balance == r.value.totalRecharge - r.value.totalConsume
  {
    if uuid == "" then Err(EmptyUuid)
    else match accounts.GetAccountByUserUUID(uuid)
      case None => Err(AccountNotFound)
      case Some(a) => Ok(Snapshot(a))
  }
}
