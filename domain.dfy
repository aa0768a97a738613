/**
 * The rows the loan controller reads and writes: loan applications, account
 * balances and transaction records, plus the request inputs of the
 * loan-response handler.
 */
module Domain {

  /** Status strings compared and written by the controller. */
  const APPROVED: string := "APPROVED"
  const REJECTED: string := "REJECTED"
  const PENDING: string := "PENDING"
  /** Lender-offer status that blocks new applications. */
  const NOT_AVAILABLE: string := "NOT_AVAILABLE"

  /**
   * A loan application: its status, the amount requested and the account
   * number of the borrower (the `users.account.account_number` of the row
   * loaded with its owner). Used both for the stored row and for the
   * snapshot that the request carries.
   */
  datatype Loan = Loan(status: string, amountRequested: int, borrowerAccount: string)

  /** The authenticated requester (the lender) with its account snapshot. */
  datatype Requester = Requester(accountNumber: string, balance: int)

  /** Body of the response request: which loan to write and the new status. */
  datatype Body = Body(loanId: int, status: string)

  datatype TxnType = CREDIT | DEBIT

  /** A row of the transaction table. */
  datatype Txn = Txn(kind: TxnType, amount: int, accountId: string, loanApplicationId: int)

  /** The three tables: loan applications by id, balances by account number, transaction rows. */
  datatype Db = Db(loans: map<int, Loan>, accounts: map<string, int>, txns: seq<Txn>)

  /**
   * The storage writes of the handler, in source order: the reject patch,
   * made on its own, and the four writes of the database transaction.
   */
  datatype WriteStep = PatchReject | UpdateLoan | CreditBorrower | DebitLender | InsertRecord

  /**
   * Whether, and at which write, the storage layer fails (connection loss,
   * timeout). A failure at a write the request never reaches has no effect.
   */
  datatype Fault = NoFault | FailAt(step: WriteStep)

  /**
   * How the handler ends: refused because the snapshot is approved, refused
   * for lack of funds, the transaction committed with its record, or a
   * storage write failed (the reject patch, or the transaction, which is
   * then rolled back).
   */
  datatype Outcome = AlreadyApproved | InsufficientFunds | Done(record: Txn) | Failed

  /** The store after the call, whether the "Loan Rejected" reply was sent, and the outcome. */
  datatype Response = Response(db: Db, rejectReply: bool, outcome: Outcome)

  /** The request snapshot describes the stored row `loanId`. */
  ghost predicate Agrees(db: Db, loan: Loan, loanId: int)
  {
    loanId in db.loans && db.loans[loanId] == loan
  }
}
