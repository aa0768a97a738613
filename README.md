# Loan response and disbursement, modelled in Dafny

This project models the loan controller of a loan-servicing backend
(`src/controllers/loan.controller.ts`). The one operation with real logic
is `respondeLoanApplication`. A lender answers a loan application with a
status. The handler then:

- refuses a loan whose pre-loaded record is already APPROVED;
- patches the loan to REJECTED when the answer is a rejection;
- refuses when the lender's account snapshot holds less than the requested amount;
- otherwise runs one database transaction that writes the loan status, the
  borrower's balance and the lender's balance, and inserts a CREDIT
  transaction row.

The model covers this handler and the offer checks that guard creating and
updating a loan application. It describes the code as written, defects
included.

Files:

- `domain.dfy` (module `Domain`): the rows (loan, requester, transaction record), the three
  tables as one value `Db`, the request body, the storage fault input and the outcome.
- `respond.dfy` (module `LoanResponse`): the handler as a function, `Respond`. It is built from
  the keyed updates `SetStatus` and `SetBalance` and the database transaction `Transaction`.
- `store.dfy` (module `LoanStore`): class `Store` with the three tables as fields. Its method
  `RespondLoanApplication` performs the writes step by step. It stages the transaction's writes
  in working copies and commits them together. Its postcondition ties the new tables and both
  results to `Respond`.
- `respond_properties.dfy` (module `RespondProperties`): lemmas about `Respond`.
- `ledger.dfy` (module `Ledger`): the sum of all balances and the count of records of one type,
  with the lemmas that relate them to single writes.
- `offer_guard.dfy` (module `OfferGuard`): the offer checks of `createLoanApplication` and
  `updateLoanApplication`.

What the lemmas show about the handler as written:

- Only an APPROVED snapshot is refused. A REJECTED loan can be answered again.
- The reject branch has no `return`. A rejection with enough funds still moves the money, and
  rejecting twice moves it twice.
- The borrower's balance is overwritten with the amount, not increased by it.
- The lender's balance is written as the request snapshot minus the amount. It is not derived
  from the stored balance.
- The two balances keep their sum only when they already added up to the snapshot balance.
- Exactly one CREDIT row is written. No DEBIT row is ever written.
- The status written inside the transaction is whatever the body says, PENDING included.
- The reject patch runs outside the transaction, so it survives a later refusal or rollback. When the patch itself fails, the handler stops with nothing written.
- Inside the transaction, an update that matches no loan row, or no borrower account row,
  makes the record's field reads fail. The transaction then rolls back.
- An update that matches no lender account row writes nothing, and the transfer still commits.

## Model

| member | source | states |
|---|---|---|
| LoanStore.Store.RespondLoanApplication | src/controllers/loan.controller.ts:117-198 | the new tables, the reject-reply flag and the outcome are those of `Respond` on the old tables; the transaction's writes reach the tables only when all four steps succeed |
| LoanResponse.SetStatus | src/controllers/loan.controller.ts:150-153 | an update by loan id changes only the status of that row, if it exists; no other row changes and no row is added |
| LoanResponse.SetBalance | src/controllers/loan.controller.ts:156-169 | an update by account number overwrites only that account's balance, if it exists; a missing account is not created |
| LoanResponse.Respond | src/controllers/loan.controller.ts:117-198 | the whole handler as a function; its own contract says only that the reject reply implies a REJECTED body and a non-APPROVED snapshot, and that no balance or record changes unless the transfer commits; the `RespondProperties` lemmas describe it in full |
| LoanResponse.Transaction | src/controllers/loan.controller.ts:149-190 | commits iff none of its four writes fails and both the loan row and the borrower account exist; a commit appends the CREDIT record, gives row `loanId` the body's status with its other fields kept, sets the borrower to the amount (to snapshot minus amount when the borrower is the lender) and the lender to snapshot minus amount, and leaves every other loan row and account as it was |
| RespondProperties.OnlyApprovedIsRefused | src/controllers/loan.controller.ts:126-130 | the outcome is AlreadyApproved iff the snapshot status is APPROVED, and then nothing is written and no reject reply is sent |
| RespondProperties.RejectedIsNotTerminal | src/controllers/loan.controller.ts:126-153 | a loan stored and loaded as REJECTED can still be approved: the transfer commits and the loan becomes APPROVED |
| RespondProperties.RejectFallsThrough | src/controllers/loan.controller.ts:131-178 | a rejection with enough funds sends the reject reply and still commits the transfer: both balances written, one record appended, loan left REJECTED |
| RespondProperties.InsufficientFundsMovesNothing | src/controllers/loan.controller.ts:131-148 | a snapshot balance below the amount gives InsufficientFunds (Failed when the reject patch itself failed) with balances and records unchanged; only a successful reject patch stays |
| RespondProperties.DoneIff | src/controllers/loan.controller.ts:126-190 | the transfer commits iff the snapshot is not APPROVED, no attempted write fails, funds suffice and the loan row and borrower account exist |
| RespondProperties.AllOrNothing | src/controllers/loan.controller.ts:131-192 | the outcome is Failed exactly when the reject patch fails, or the guards pass and a transaction write fails or a row is missing; a failed patch writes nothing, and otherwise balances and records are unchanged and the loans differ from the old ones by at most the reject patch |
| RespondProperties.TouchesOnlyItsRows | src/controllers/loan.controller.ts:131-190 | on every path only the loan `loanId` and the borrower's and lender's accounts change, no row is added or removed, and at most one record is appended |
| RespondProperties.LenderDebit | src/controllers/loan.controller.ts:143-169 | after a commit the lender's balance is snapshot minus amount, non-negative, and equal to stored minus amount iff the snapshot matched the stored balance |
| RespondProperties.BorrowerOverwrite | src/controllers/loan.controller.ts:156-161 | after a commit to a different account the borrower's balance is the amount itself, an increase by the amount only when it was zero |
| RespondProperties.PairConservation | src/controllers/loan.controller.ts:156-169 | the two balances keep their sum iff their old sum equals the snapshot balance, as when the borrower starts at zero and the snapshot is current |
| RespondProperties.LedgerTotal | src/controllers/loan.controller.ts:156-169 | the sum of all balances after a commit, for separate accounts, a lender with no account row and a borrower who is the lender |
| RespondProperties.ExactlyOneCreditRecord | src/controllers/loan.controller.ts:172-178 | a commit appends exactly one record: CREDIT, the amount, the borrower's account and the loan id; the DEBIT count is unchanged |
| RespondProperties.StatusFromBodyUnchecked | src/controllers/loan.controller.ts:150-153 | a commit leaves the loan with the body's status unchecked; with PENDING the loan row is left as it was |
| RespondProperties.NonNegativeBalances | src/controllers/loan.controller.ts:143-169 | from non-negative balances, a commit keeps all balances non-negative iff the amount is non-negative or the borrower is the lender |
| RespondProperties.RejectionDisbursesTwice | src/controllers/loan.controller.ts:126-190 | two rejections of the same loan, with snapshots reloaded from the store, both commit: two records, the lender debited twice, the borrower holding one amount |
| OfferGuard.CreateCheck | src/controllers/loan.controller.ts:17-28 | creation goes on iff the offer exists and is not NOT_AVAILABLE; a missing offer gives 404 and an unavailable one 400 |
| OfferGuard.UpdateCheck | src/controllers/loan.controller.ts:49-56 | an update goes on iff the offer exists; the offer's availability is never reported |
| OfferGuard.UpdateAdmitsUnavailableOffer | src/controllers/loan.controller.ts:17-56 | whatever creation admits, an update admits; the two differ exactly on existing NOT_AVAILABLE offers |

## Left out

- HTTP handling is not modelled: requests, responses, status codes and `next`. Only the outcome tag and whether the "Loan Rejected" reply was sent are kept.
- The second reply after the reject branch is not modelled. Sending it fails in the web framework and lands in the catch block. This changes no stored state: the tables end as modelled.
- The requester and the pre-loaded loan are inputs, as the authentication and loading middleware supply them. A requester without an account, or a loan without a borrower account, would throw while reading the field. Neither case is modelled.
- The snapshot and the stored row are independent inputs. No precondition ties `loan` to `loans[loanId]`. The lemmas that need them to agree say so with `Agrees`.
- Amounts are unbounded integers. JavaScript numbers and the way the database driver returns decimal columns are not modelled.
- Storage faults are the explicit input `fault`, naming the write that fails: the reject patch or one of the four writes of the transaction. Timeouts and connectivity loss are faults of this kind. A failed read of the offer table is not modelled.
- Concurrency is not modelled: two responses on the same loan, stale balances between requests, and the transaction's isolation level. The model is sequential.
- Transaction rows carry no generated id and no creation time. The eager loading of the account, user and loan on the inserted row is not modelled.
- The loan service, the lender service and the query models (`LoanService.*`, `LenderService.getLenderService`, `LoanModel`, `TransactionModel`) are not part of this model. `UpdateCheck` assumes `getLenderService` finds the offer by id in the same offer table.
- `getLoanApplication` and `getAllLoanApplication` are not modelled. They only forward to the loan service. The same holds for the write in `updateLoanApplication` and in `createLoanApplication`: only their offer checks are modelled.
- Error logging to the console is not modelled.
- `src/database/knexfile.ts` is not modelled. It holds only connection and migration settings.
