/**
 * The loan-response handler `respondeLoanApplication` as a function on the
 * three tables: the status guard on the request snapshot, the reject patch,
 * the funds guard on the requester snapshot, and the database transaction
 * with its four writes.
 */
module LoanResponse {
  import opened Domain

  /**
   * `update ... where id = loanId` on the loan table: the row with that id,
   * if there is one, takes the new status; no other row and no key changes.
   */
  function SetStatus(loans: map<int, Loan>, id: int, s: string): (r: map<int, Loan>)
    ensures r.Keys == loans.Keys
    ensures forall k :: k in loans && k != id ==> r[k] == loans[k]
    ensures id in loans ==>
      (r[id].status == s
       && r[id].amountRequested == loans[id].amountRequested
       && r[id].borrowerAccount == loans[id].borrowerAccount)
  {
    if id in loans then loans[id := loans[id].(status := s)] else loans
  }

  /**
   * `update ... where account_number = n` on the account table: the balance
   * of that account, if it exists, is overwritten; a missing account is not
   * created.
   */
  function SetBalance(accounts: map<string, int>, n: string, v: int): (r: map<string, int>)
    ensures r.Keys == accounts.Keys
    ensures forall k :: k in accounts && k != n ==> r[k] == accounts[k]
    ensures n in accounts ==> r[n] == v
  {
    if n in accounts then accounts[n := v] else accounts
  }

  /** What `db.transaction` returns: the committed tables and the inserted record, or a rollback. */
  datatype TrxResult = Committed(db: Db, record: Txn) | RolledBack

  /** A failure of one of the four writes inside the database transaction. */
  predicate TrxFails(fault: Fault)
  {
    fault.FailAt? && fault.step != PatchReject
  }

  /** The reject patch is attempted (the body says REJECTED) and the storage layer fails it. */
  predicate PatchFails(body: Body, fault: Fault)
  {
    body.status == REJECTED && fault == FailAt(PatchReject)
  }

  /**
   * The `db.transaction` block of `respondeLoanApplication`. Its writes are
   * the loan status from the body, the borrower balance set to the
   * requested amount, the lender balance set to the snapshot balance minus
   * the amount, and one CREDIT row. The record takes the account number and
   * loan id from the rows the first two updates returned; when either
   * update matched no row, reading element 0 throws and the transaction
   * rolls back, as it does when one of its writes fails.
   */
  function Transaction(db: Db, loan: Loan, user: Requester, body: Body, fault: Fault): (r: TrxResult)
    ensures r.Committed? <==>
      !TrxFails(fault) && body.loanId in db.loans && loan.borrowerAccount in db.accounts
    ensures r.Committed? ==>
      && r.record == Txn(CREDIT, loan.amountRequested, loan.borrowerAccount, body.loanId)
      && r.db.txns == db.txns + [r.record]
      && r.db.loans.Keys == db.loans.Keys
      && r.db.loans[body.loanId] == db.loans[body.loanId].(status := body.status)
      && (forall k :: k in db.loans && k != body.loanId ==> r.db.loans[k] == db.loans[k])
      && r.db.accounts.Keys == db.accounts.Keys
      && r.db.accounts[loan.borrowerAccount] ==
           (if loan.borrowerAccount == user.accountNumber then user.balance - loan.amountRequested
            else loan.amountRequested)
      && (user.accountNumber in db.accounts ==>
            r.db.accounts[user.accountNumber] == user.balance - loan.amountRequested)
      && (forall n :: n in db.accounts && n != loan.borrowerAccount && n != user.accountNumber ==>
            r.db.accounts[n] == db.accounts[n])
  {
    if TrxFails(fault) || body.loanId !in db.loans || loan.borrowerAccount !in db.accounts then
      RolledBack
    else
      var loans := SetStatus(db.loans, body.loanId, body.status);
      var credited := SetBalance(db.accounts, loan.borrowerAccount, loan.amountRequested);
      var debited := SetBalance(credited, user.accountNumber, user.balance - loan.amountRequested);
      var record := Txn(CREDIT, loan.amountRequested, loan.borrowerAccount, body.loanId);
      Committed(Db(loans, debited, db.txns + [record]), record)
  }

  /**
   * The whole `respondeLoanApplication` handler. `loan` is the snapshot the
   * request carries and `user` the requester's account snapshot; neither is
   * read from the store. The status guard looks only for APPROVED; the
   * reject branch patches the stored row but does not return, so the funds
   * guard and the transaction follow it. A failed reject patch throws
   * before its reply, and nothing is written.
   */
  function Respond(db: Db, loan: Loan, user: Requester, body: Body, fault: Fault): (r: Response)
    ensures r.rejectReply ==> body.status == REJECTED && loan.status != APPROVED
    ensures !r.outcome.Done? ==> r.db.accounts == db.accounts && r.db.txns == db.txns
  {
    if loan.status == APPROVED then
      Response(db, false, AlreadyApproved)
    else if PatchFails(body, fault) then
      Response(db, false, Failed)
    else
      var rejected := body.status == REJECTED;
      var patched := if rejected then db.(loans := SetStatus(db.loans, body.loanId, REJECTED)) else db;
      if user.balance < loan.amountRequested then
        Response(patched, rejected, InsufficientFunds)
      else
        match Transaction(patched, loan, user, body, fault)
        case Committed(after, record) => Response(after, rejected, Done(record))
        case RolledBack => Response(patched, rejected, Failed)
  }
}
