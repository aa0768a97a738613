/**
 * The database as the controller sees it: the loan-application, account
 * and transaction tables, updated in place by the loan-response handler.
 */
module LoanStore {
  import opened Domain
  import opened LoanResponse

  class Store {
    var loans: map<int, Loan>
    var accounts: map<string, int>
    var txns: seq<Txn>

    /** The three tables as one value. */
    function State(): Db
      reads this
    {
      Db(loans, accounts, txns)
    }

    constructor (loans0: map<int, Loan>, accounts0: map<string, int>, txns0: seq<Txn>)
      ensures State() == Db(loans0, accounts0, txns0)
    {
      loans, accounts, txns := loans0, accounts0, txns0;
    }

    /**
     * `respondeLoanApplication`: `loan` is the request's pre-loaded loan,
     * `user` the requester with its account snapshot, `body` the loan id and
     * status of the request body, `fault` whether, and at which write, the
     * storage layer fails. The transaction's writes go to
     * working copies of the tables and replace the tables only at commit;
     * the reject patch before it is written straight to the table.
     */
    method RespondLoanApplication(loan: Loan, user: Requester, body: Body, fault: Fault)
      returns (rejectReply: bool, outcome: Outcome)
      modifies this
      ensures Response(State(), rejectReply, outcome) == Respond(old(State()), loan, user, body, fault)
    {
      if loan.status == APPROVED {
        return false, AlreadyApproved;
      }
      rejectReply := false;
      if body.status == REJECTED {
        if fault == FailAt(PatchReject) {
          return false, Failed;
        }
        if body.loanId in loans {
          loans := loans[body.loanId := loans[body.loanId].(status := REJECTED)];
        }
        rejectReply := true;
      }
      if user.balance < loan.amountRequested {
        return rejectReply, InsufficientFunds;
      }

      // db.transaction: writes go to the working copies until commit
      var trxLoans, trxAccounts, trxTxns := loans, accounts, txns;

      if fault == FailAt(UpdateLoan) {
        return rejectReply, Failed;
      }
      var updatedLoan: seq<int> := [];
      if body.loanId in trxLoans {
        trxLoans := trxLoans[body.loanId := trxLoans[body.loanId].(status := body.status)];
        updatedLoan := [body.loanId];
      }

      if fault == FailAt(CreditBorrower) {
        return rejectReply, Failed;
      }
      var accountTransfered: seq<string> := [];
      if loan.borrowerAccount in trxAccounts {
        trxAccounts := trxAccounts[loan.borrowerAccount := loan.amountRequested];
        accountTransfered := [loan.borrowerAccount];
      }

      if fault == FailAt(DebitLender) {
        return rejectReply, Failed;
      }
      if user.accountNumber in trxAccounts {
        trxAccounts := trxAccounts[user.accountNumber := user.balance - loan.amountRequested];
      }

      // building the record reads element 0 of both update results
      if fault == FailAt(InsertRecord) || accountTransfered == [] || updatedLoan == [] {
        return rejectReply, Failed;
      }
      var record := Txn(CREDIT, loan.amountRequested, accountTransfered[0], updatedLoan[0]);
      trxTxns := trxTxns + [record];

      // commit
      loans, accounts, txns := trxLoans, trxAccounts, trxTxns;
      outcome := Done(record);
    }
  }
}
