// The `user_account` table and its repository (internal/repository/order.go).
// Money columns are DECIMAL(10,2); the model keeps them exactly as integer cents.
module AccountRepo {
  import opened Results

  /** One `user_account` row (`model.UserAccount`). */
  datatype Account = Account(id: nat, userUuid: string, balance: int, totalRecharge: int, totalConsume: int)

  /** The logical outcomes the repository reports. */
  datatype RepoError =
    | DuplicateUuid                                   // MySQL 1062 on the unique user_uuid index
    | NonPositiveRecharge                             // "充值金额必须大于0"
    | NonPositiveDeduct                               // "消费金额必须大于0"
    | AccountMissing                                  // no row for the uuid
    | InsufficientFunds(balance: int, amount: int)    // "账户余额不足"

  type Table = map<string, Account>

  /** `balance - total_recharge + total_consume`: what every update keeps fixed. */
  function Drift(a: Account): int {
    a.balance - a.totalRecharge + a.totalConsume
  }

  /** The ledger rule for one row: nothing negative, and the balance is the
      recharges minus the consumption (a new row starts at zero). */
  predicate RowOk(a: Account) {
    a.balance >= 0 && a.totalRecharge >= 0 && a.totalConsume >= 0 && Drift(a) == 0
  }

  /** Every row is keyed by its own uuid and keeps the ledger rule. */
  ghost predicate TableOk(t: Table) {
    forall u :: u in t ==> t[u].userUuid == u && RowOk(t[u])
  }

  // ---------------------------------------------------------------------
  // The three statements as transitions of the table.

  /** `INSERT INTO user_account (user_uuid) VALUES (?)` with auto-increment id `id`. */
  function Create(t: Table, uuid: string, id: nat): Result<Table, RepoError> {
    if uuid in t then Err(DuplicateUuid)
    else Ok(t[uuid := Account(id, uuid, 0, 0, 0)])
  }

  /** `RechargeBalance`: the guard, then `balance = balance + ?, total_recharge = total_recharge + ?`. */
  function Recharge(t: Table, uuid: string, amount: int): Result<Table, RepoError> {
    if amount <= 0 then Err(NonPositiveRecharge)
    else if uuid !in t then Err(AccountMissing)
    else Ok(t[uuid := t[uuid].(balance := t[uuid].balance + amount,
                                totalRecharge := t[uuid].totalRecharge + amount)])
  }

  /** `DeductBalance`: the guard, the balance read and check, then
      `balance = balance - ?, total_consume = total_consume + ?`. */
  function Deduct(t: Table, uuid: string, amount: int): Result<Table, RepoError> {
    if amount <= 0 then Err(NonPositiveDeduct)
    else if uuid !in t then Err(AccountMissing)
    else if t[uuid].balance < amount then Err(InsufficientFunds(t[uuid].balance, amount))
    else Ok(t[uuid := t[uuid].(balance := t[uuid].balance - amount,
                                totalConsume := t[uuid].totalConsume + amount)])
  }

  // ---------------------------------------------------------------------
  // Properties of the transitions.

  /** A recharge fails exactly for a non-positive amount or an unknown uuid,
      in that order; otherwise it credits `amount` to the balance and to
      `total_recharge` of that row alone. */
  lemma RechargeSpec(t: Table, uuid: string, amount: int)
    ensures amount <= 0 ==> Recharge(t, uuid, amount) == Err(NonPositiveRecharge)
    ensures amount > 0 && uuid !in t ==> Recharge(t, uuid, amount) == Err(AccountMissing)
    ensures amount > 0 && uuid in t ==>
      var t' := Recharge(t, uuid, amount).value;
      && t'.Keys == t.Keys
      && t'[uuid].balance == t[uuid].balance + amount
      && t'[uuid].totalRecharge == t[uuid].totalRecharge + amount
      && t'[uuid].totalConsume == t[uuid].totalConsume
      && t'[uuid].id == t[uuid].id && t'[uuid].userUuid == t[uuid].userUuid
      && forall u :: u in t && u != uuid ==> t'[u] == t[u]
  {
  }

  /** A deduction fails, in order, for a non-positive amount, an unknown
      uuid, and a balance strictly below the amount; otherwise it moves
      `amount` from the balance to `total_consume` of that row alone. */
  lemma DeductSpec(t: Table, uuid: string, amount: int)
    ensures amount <= 0 ==> Deduct(t, uuid, amount) == Err(NonPositiveDeduct)
    ensures amount > 0 && uuid !in t ==> Deduct(t, uuid, amount) == Err(AccountMissing)
    ensures amount > 0 && uuid in t && t[uuid].balance < amount ==>
      Deduct(t, uuid, amount) == Err(InsufficientFunds(t[uuid].balance, amount))
    ensures amount > 0 && uuid in t && amount <= t[uuid].balance ==>
      var t' := Deduct(t, uuid, amount).value;
      && t'.Keys == t.Keys
      && t'[uuid].balance == t[uuid].balance - amount
      && t'[uuid].totalConsume == t[uuid].totalConsume + amount
      && t'[uuid].totalRecharge == t[uuid].totalRecharge
      && t'[uuid].id == t[uuid].id && t'[uuid].userUuid == t[uuid].userUuid
      && forall u :: u in t && u != uuid ==> t'[u] == t[u]
  {
  }

  /** Deducting exactly the whole balance is allowed and leaves zero (the
      comparison is a strict `LessThan`). */
  lemma DeductWholeBalance(t: Table, uuid: string)
    requires uuid in t && t[uuid].balance > 0
    ensures Deduct(t, uuid, t[uuid].balance).Ok?
    ensures Deduct(t, uuid, t[uuid].balance).value[uuid].balance == 0
  {
  }

  /** Both updates keep `balance - total_recharge + total_consume` of every row. */
  lemma UpdatesKeepDrift(t: Table, uuid: string, amount: int)
    ensures Recharge(t, uuid, amount).Ok? ==>
      forall u :: u in t ==> Drift(Recharge(t, uuid, amount).value[u]) == Drift(t[u])
    ensures Deduct(t, uuid, amount).Ok? ==>
      forall u :: u in t ==> Drift(Deduct(t, uuid, amount).value[u]) == Drift(t[u])
  {
  }

  // ---------------------------------------------------------------------
  // Any sequence of repository calls.

  datatype Op = CreateOp(uuid: string) | RechargeOp(uuid: string, amount: int) | DeductOp(uuid: string, amount: int)

  /** One call: a failed call leaves the table as it was; a create uses `id`. */
  function Step(t: Table, op: Op, id: nat): Table {
    var r := match op
      case CreateOp(u) => Create(t, u, id)
      case RechargeOp(u, a) => Recharge(t, u, a)
      case DeductOp(u, a) => Deduct(t, u, a);
    if r.Ok? then r.value else t
  }

  /** The table after `ops`, the i-th create receiving id `firstId + i`. */
  function Run(t: Table, ops: seq<Op>, firstId: nat): Table
    decreases |ops|
  {
    if ops == [] then t else Run(Step(t, ops[0], firstId), ops[1..], firstId + 1)
  }

  /** Each row only grows its two totals; rows are never removed. */
  ghost predicate Grows(t: Table, t': Table) {
    forall u :: u in t ==> u in t' && t'[u].totalRecharge >= t[u].totalRecharge
                                   && t'[u].totalConsume >= t[u].totalConsume
  }

  lemma StepKeepsLedger(t: Table, op: Op, id: nat)
    requires TableOk(t)
    ensures TableOk(Step(t, op, id)) && Grows(t, Step(t, op, id))
  {
  }

  /** Whatever calls are made, in any order, every row keeps the ledger rule
      (so no balance ever goes negative) and no total ever decreases. */
  lemma {:induction false} RunKeepsLedger(t: Table, ops: seq<Op>, firstId: nat)
    requires TableOk(t)
    ensures TableOk(Run(t, ops, firstId))
    ensures Grows(t, Run(t, ops, firstId))
    decreases |ops|
  {
    if ops != [] {
      var t1 := Step(t, ops[0], firstId);
      StepKeepsLedger(t, ops[0], firstId);
      RunKeepsLedger(t1, ops[1..], firstId + 1);
    }
  }

  /** The wallet walk-through: create, recharge 100.00, deduct 30.00, then a
      deduction of 100.00 is refused and the balance stays 70.00. */
  lemma WalletScenario()
    ensures var t1 := Create(map[], "u1", 1).value;
            var t2 := Recharge(t1, "u1", 10000).value;
            var t3 := Deduct(t2, "u1", 3000).value;
            && t3["u1"] == Account(1, "u1", 7000, 10000, 3000)
            && Deduct(t3, "u1", 10000) == Err(InsufficientFunds(7000, 10000))
  {
  }

  // ---------------------------------------------------------------------
  // The repository: the table, updated in place.

  class AccountStore {
    var rows: Table
    var nextId: nat

    ghost predicate Valid()
      reads this
    {
      TableOk(rows) && forall u :: u in rows ==> rows[u].id < nextId
    }

    constructor ()
      ensures Valid() && rows == map[] && nextId == 1
    {
      rows := map[];
      nextId := 1;
    }

    /** `CreateAccount`: inserts a zero row; a duplicate uuid is refused and
        the table is unchanged, so there is at most one account per uuid.
        Either way the insert uses up one auto-increment value, as InnoDB
        allocates it before the unique index refuses the row. */
    method CreateAccount(uuid: string) returns (err: Option<RepoError>)
      requires Valid()
      modifies this
      ensures Valid() && nextId == old(nextId) + 1
      ensures Create(old(rows), uuid, old(nextId)) == if err.Some? then Err(err.value) else Ok(rows)
      ensures err.Some? ==> err == Some(DuplicateUuid) && rows == old(rows)
      ensures err.None? ==> uuid in rows && rows[uuid].balance == 0 && uuid !in old(rows)
    {
      if uuid in rows {
        nextId := nextId + 1;
        return Some(DuplicateUuid);
      }
      rows := rows[uuid := Account(nextId, uuid, 0, 0, 0)];
      nextId := nextId + 1;
      err := None;
    }

    /** `RechargeBalance`: rejects `amount <= 0` before touching the table,
        then reports a missing account when no row is updated. */
    method RechargeBalance(uuid: string, amount: int) returns (err: Option<RepoError>)
      requires Valid()
      modifies this
      ensures Valid() && nextId == old(nextId)
      ensures Recharge(old(rows), uuid, amount) == if err.Some? then Err(err.value) else Ok(rows)
      ensures err.Some? ==> rows == old(rows)
    {
      if amount <= 0 {
        return Some(NonPositiveRecharge);
      }
      if uuid !in rows {
        // zero rows affected
        return Some(AccountMissing);
      }
      var row := rows[uuid];
      rows := rows[uuid := row.(balance := row.balance + amount, totalRecharge := row.totalRecharge + amount)];
      err := None;
    }

    /** `DeductBalance`: the amount guard, a read of the balance, the
        sufficiency check, and only then the update. */
    method DeductBalance(uuid: string, amount: int) returns (err: Option<RepoError>)
      requires Valid()
      modifies this
      ensures Valid() && nextId == old(nextId)
      ensures Deduct(old(rows), uuid, amount) == if err.Some? then Err(err.value) else Ok(rows)
      ensures err.Some? ==> rows == old(rows)
    {
      if amount <= 0 {
        return Some(NonPositiveDeduct);
      }
      if uuid !in rows {
        // sql.ErrNoRows on the balance read
        return Some(AccountMissing);
      }
      var balance := rows[uuid].balance;
      if balance < amount {
        return Some(InsufficientFunds(balance, amount));
      }
      var row := rows[uuid];
      rows := rows[uuid := row.(balance := row.balance - amount, totalConsume := row.totalConsume + amount)];
      err := None;
    }

    /** `GetAccountByUserUUID`: an unknown uuid is "absent", not an error. */
    function GetAccountByUserUUID(uuid: string): (r: Option<Account>)
      requires Valid()
      reads this
      ensures r.None? <==> uuid !in rows
      ensures r.Some? ==> r.value == rows[uuid]
      ensures r.Some? ==> r.value.userUuid == uuid && r.value.balance >= 0
                          && r.value.balance == r.value.totalRecharge - r.value.totalConsume
    {
      if uuid in rows then Some(rows[uuid]) else None
    }
  }
}
