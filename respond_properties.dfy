/**
 * What the loan-response handler does to the three tables, stated over
 * `LoanResponse.Respond`. The lemmas describe the code as it is written,
 * including where it falls short of a safe disbursement: the borrower
 * balance is overwritten, a rejection falls through into the transfer,
 * REJECTED is not final, the lender write uses the request snapshot and
 * only a CREDIT row is recorded.
 */
module RespondProperties {
  import opened Domain
  import opened Ledger
  import opened LoanResponse

  /** The only refusal before any write is an APPROVED snapshot, and it writes nothing. */
  lemma OnlyApprovedIsRefused(db: Db, loan: Loan, user: Requester, body: Body, fault: Fault)
    ensures Respond(db, loan, user, body, fault).outcome == AlreadyApproved <==> loan.status == APPROVED
    ensures loan.status == APPROVED ==> Respond(db, loan, user, body, fault) == Response(db, false, AlreadyApproved)
  {
  }

  /**
   * A loan stored and loaded as REJECTED passes the status guard: approving
   * it afterwards moves the money and marks it APPROVED.
   */
  lemma RejectedIsNotTerminal(db: Db, loan: Loan, user: Requester, id: int)
    requires Agrees(db, loan, id) && loan.status == REJECTED
    requires user.balance >= loan.amountRequested
    requires loan.borrowerAccount in db.accounts
    ensures var r := Respond(db, loan, user, Body(id, APPROVED), NoFault);
      r.outcome.Done? && r.db.loans[id].status == APPROVED && |r.db.txns| == |db.txns| + 1
  {
  }

  /**
   * The reject branch sends its reply but does not return: with enough
   * funds the transaction still runs, both balances are written and a
   * record is appended, and the loan ends REJECTED.
   */
  lemma RejectFallsThrough(db: Db, loan: Loan, user: Requester, id: int)
    requires loan.status != APPROVED
    requires user.balance >= loan.amountRequested
    requires id in db.loans && loan.borrowerAccount in db.accounts
    requires user.accountNumber in db.accounts && user.accountNumber != loan.borrowerAccount
    ensures var r := Respond(db, loan, user, Body(id, REJECTED), NoFault);
      && r.rejectReply
      && r.outcome == Done(Txn(CREDIT, loan.amountRequested, loan.borrowerAccount, id))
      && r.db.loans[id].status == REJECTED
      && r.db.accounts[loan.borrowerAccount] == loan.amountRequested
      && r.db.accounts[user.accountNumber] == user.balance - loan.amountRequested
      && r.db.txns == db.txns + [Txn(CREDIT, loan.amountRequested, loan.borrowerAccount, id)]
  {
  }

  /**
   * With the requester's snapshot balance below the amount the handler
   * stops before the transaction: no balance and no record changes. Only
   * the reject patch, which ran before the check, stays written; if that
   * patch itself failed, the handler stopped there with nothing written.
   */
  lemma InsufficientFundsMovesNothing(db: Db, loan: Loan, user: Requester, body: Body, fault: Fault)
    requires loan.status != APPROVED && user.balance < loan.amountRequested
    ensures var r := Respond(db, loan, user, body, fault);
      && r.outcome == (if PatchFails(body, fault) then Failed else InsufficientFunds)
      && r.db.accounts == db.accounts
      && r.db.txns == db.txns
      && r.rejectReply == (body.status == REJECTED && !PatchFails(body, fault))
      && r.db.loans == (if r.rejectReply then SetStatus(db.loans, body.loanId, REJECTED) else db.loans)
  {
  }

  /** Exactly when the transfer commits. */
  lemma DoneIff(db: Db, loan: Loan, user: Requester, body: Body, fault: Fault)
    ensures Respond(db, loan, user, body, fault).outcome.Done? <==>
      && loan.status != APPROVED
      && !PatchFails(body, fault)
      && user.balance >= loan.amountRequested
      && !TrxFails(fault)
      && body.loanId in db.loans
      && loan.borrowerAccount in db.accounts
  {
  }

  /**
   * Storage failures leave no partial transfer. A failed reject patch
   * throws before anything is written. The database transaction is
   * all-or-nothing: when one of its writes fails, or the loan row or the
   * borrower account is missing, no balance, record or status write of the
   * transaction remains. The reject patch, made before the transaction
   * opened, is not rolled back.
   */
  lemma AllOrNothing(db: Db, loan: Loan, user: Requester, body: Body, fault: Fault)
    ensures var r := Respond(db, loan, user, body, fault);
      r.outcome == Failed <==>
        && loan.status != APPROVED
        && (PatchFails(body, fault)
            || (user.balance >= loan.amountRequested
                && (TrxFails(fault) || body.loanId !in db.loans || loan.borrowerAccount !in db.accounts)))
    ensures loan.status != APPROVED && PatchFails(body, fault) ==>
      Respond(db, loan, user, body, fault) == Response(db, false, Failed)
    ensures var r := Respond(db, loan, user, body, fault);
      r.outcome == Failed ==>
        && r.db.accounts == db.accounts
        && r.db.txns == db.txns
        && r.rejectReply == (body.status == REJECTED && !PatchFails(body, fault))
        && r.db.loans == (if r.rejectReply then SetStatus(db.loans, body.loanId, REJECTED) else db.loans)
  {
  }

  /**
   * Whatever the outcome, only the row `loanId`, the borrower's and the
   * lender's accounts are written, no row is created or deleted, and the
   * transaction table only grows, by at most one row.
   */
  lemma TouchesOnlyItsRows(db: Db, loan: Loan, user: Requester, body: Body, fault: Fault)
    ensures var r := Respond(db, loan, user, body, fault);
      && r.db.loans.Keys == db.loans.Keys
      && (forall k :: k in db.loans && k != body.loanId ==> r.db.loans[k] == db.loans[k])
      && r.db.accounts.Keys == db.accounts.Keys
      && (forall n :: n in db.accounts && n != loan.borrowerAccount && n != user.accountNumber ==>
            r.db.accounts[n] == db.accounts[n])
      && db.txns <= r.db.txns && |r.db.txns| <= |db.txns| + 1
  {
  }

  /**
   * After a committed transfer the lender's balance is the request
   * snapshot minus the amount, which the funds guard keeps non-negative. It
   * equals the stored balance minus the amount only when the snapshot was
   * not stale.
   */
  lemma LenderDebit(db: Db, loan: Loan, user: Requester, body: Body, fault: Fault)
    requires Respond(db, loan, user, body, fault).outcome.Done?
    requires user.accountNumber in db.accounts
    ensures var after := Respond(db, loan, user, body, fault).db.accounts[user.accountNumber];
      && after == user.balance - loan.amountRequested
      && after >= 0
      && (after == db.accounts[user.accountNumber] - loan.amountRequested <==>
            db.accounts[user.accountNumber] == user.balance)
  {
  }

  /**
   * After a committed transfer to a different account the borrower's
   * balance is the requested amount, whatever it held before: it is
   * credited with the amount only when it was zero.
   */
  lemma BorrowerOverwrite(db: Db, loan: Loan, user: Requester, body: Body, fault: Fault)
    requires Respond(db, loan, user, body, fault).outcome.Done?
    requires loan.borrowerAccount != user.accountNumber
    ensures var after := Respond(db, loan, user, body, fault).db.accounts[loan.borrowerAccount];
      && after == loan.amountRequested
      && (after == db.accounts[loan.borrowerAccount] + loan.amountRequested <==>
            db.accounts[loan.borrowerAccount] == 0)
  {
  }

  /**
   * The two participating balances keep their sum exactly when the stored
   * balances already added up to the requester's snapshot balance, as when
   * the borrower started at zero and the snapshot was current.
   */
  lemma PairConservation(db: Db, loan: Loan, user: Requester, body: Body, fault: Fault)
    requires Respond(db, loan, user, body, fault).outcome.Done?
    requires loan.borrowerAccount != user.accountNumber && user.accountNumber in db.accounts
    ensures var a := Respond(db, loan, user, body, fault).db.accounts;
      var b, l := loan.borrowerAccount, user.accountNumber;
      a[b] + a[l] == db.accounts[b] + db.accounts[l] <==> db.accounts[b] + db.accounts[l] == user.balance
    ensures var a := Respond(db, loan, user, body, fault).db.accounts;
      var b, l := loan.borrowerAccount, user.accountNumber;
      db.accounts[b] == 0 && db.accounts[l] == user.balance ==> a[b] + a[l] == db.accounts[b] + db.accounts[l]
  {
  }

  /**
   * The sum of all balances in the account table after a committed
   * transfer, in each of the three cases: separate accounts, a lender with
   * no account row (its update matches nothing, so money is created), and a
   * borrower who is the lender.
   */
  lemma LedgerTotal(db: Db, loan: Loan, user: Requester, body: Body, fault: Fault)
    requires Respond(db, loan, user, body, fault).outcome.Done?
    ensures var a := Respond(db, loan, user, body, fault).db.accounts;
      var b, l, amt := loan.borrowerAccount, user.accountNumber, loan.amountRequested;
      Total(a) ==
        if l !in db.accounts then Total(db.accounts) - db.accounts[b] + amt
        else if l == b then Total(db.accounts) - db.accounts[b] + user.balance - amt
        else Total(db.accounts) - db.accounts[b] - db.accounts[l] + user.balance
  {
    var b, l, amt := loan.borrowerAccount, user.accountNumber, loan.amountRequested;
    var credited := SetBalance(db.accounts, b, amt);
    TotalUpdate(db.accounts, b, amt);
    if l in db.accounts {
      TotalUpdate(credited, l, user.balance - amt);
    }
  }

  /**
   * A committed transfer appends exactly one row: a CREDIT of the requested
   * amount to the borrower's account for the updated loan. No DEBIT row is
   * written for the lender.
   */
  lemma ExactlyOneCreditRecord(db: Db, loan: Loan, user: Requester, body: Body, fault: Fault)
    requires Respond(db, loan, user, body, fault).outcome.Done?
    ensures var r := Respond(db, loan, user, body, fault);
      && r.outcome.record == Txn(CREDIT, loan.amountRequested, loan.borrowerAccount, body.loanId)
      && r.db.txns == db.txns + [r.outcome.record]
      && CountKind(r.db.txns, CREDIT) == CountKind(db.txns, CREDIT) + 1
      && CountKind(r.db.txns, DEBIT) == CountKind(db.txns, DEBIT)
  {
    var record := Txn(CREDIT, loan.amountRequested, loan.borrowerAccount, body.loanId);
    CountKindConcat(db.txns, [record], CREDIT);
    CountKindConcat(db.txns, [record], DEBIT);
  }

  /**
   * The transaction writes the status from the request body unchecked: a
   * committed transfer leaves the loan with that status, so a body status
   * of PENDING moves the money and leaves a PENDING loan as it was, ready
   * to be answered again.
   */
  lemma StatusFromBodyUnchecked(db: Db, loan: Loan, user: Requester, body: Body, fault: Fault)
    requires Respond(db, loan, user, body, fault).outcome.Done?
    ensures Respond(db, loan, user, body, fault).db.loans[body.loanId].status == body.status
    ensures body.status == PENDING && loan.status == PENDING && Agrees(db, loan, body.loanId) ==>
      Respond(db, loan, user, body, fault).db.loans[body.loanId] == loan
  {
  }

  /**
   * Balances stay non-negative after a committed transfer exactly as far as
   * the requested amount is non-negative: the borrower's new balance is the
   * amount itself.
   */
  lemma NonNegativeBalances(db: Db, loan: Loan, user: Requester, body: Body, fault: Fault)
    requires Respond(db, loan, user, body, fault).outcome.Done?
    requires forall n :: n in db.accounts ==> db.accounts[n] >= 0
    ensures var a := Respond(db, loan, user, body, fault).db.accounts;
      (forall n :: n in a ==> a[n] >= 0) <==> (loan.amountRequested >= 0 || loan.borrowerAccount == user.accountNumber)
  {
  }

  /**
   * Rejecting the same loan twice, each time with the snapshots reloaded
   * from the store, disburses twice: two CREDIT rows, the lender debited
   * twice, and the borrower left holding one amount, not two.
   */
  lemma RejectionDisbursesTwice(db: Db, loan: Loan, lender: string, id: int)
    requires Agrees(db, loan, id) && loan.status != APPROVED
    requires loan.borrowerAccount in db.accounts && lender in db.accounts && lender != loan.borrowerAccount
    requires loan.amountRequested >= 0 && db.accounts[lender] >= 2 * loan.amountRequested
    ensures var r1 := Respond(db, loan, Requester(lender, db.accounts[lender]), Body(id, REJECTED), NoFault);
      var r2 := Respond(r1.db, r1.db.loans[id], Requester(lender, r1.db.accounts[lender]), Body(id, REJECTED), NoFault);
      && r1.outcome.Done? && r2.outcome.Done?
      && r2.db.loans[id].status == REJECTED
      && |r2.db.txns| == |db.txns| + 2
      && r2.db.accounts[lender] == db.accounts[lender] - 2 * loan.amountRequested
      && r2.db.accounts[loan.borrowerAccount] == loan.amountRequested
  {
  }
}
