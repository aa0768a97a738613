/**
 * The lender-offer checks that guard creating and updating a loan
 * application. The application itself is written by the loan service,
 * which is not part of this model; only the decision is.
 */
module OfferGuard {
  import opened Domain

  /** A row of the lender-offer table (only its status is read). */
  datatype Offer = Offer(status: string)

  /** 404 when the offer is missing, 400 when it is not available, otherwise go on. */
  datatype Decision = OfferMissing | OfferNotAvailable | Proceed

  /**
   * `createLoanApplication`: looks up the referenced offer by id; a missing
   * offer and an offer whose status is NOT_AVAILABLE both stop the request
   * before anything is created.
   */
  function CreateCheck(offers: map<int, Offer>, lenderOfferId: int): (d: Decision)
    ensures d == OfferMissing <==> lenderOfferId !in offers
    ensures d == OfferNotAvailable <==> lenderOfferId in offers && offers[lenderOfferId].status == NOT_AVAILABLE
    ensures d == Proceed <==> lenderOfferId in offers && offers[lenderOfferId].status != NOT_AVAILABLE
  {
    if lenderOfferId !in offers then OfferMissing
    else if offers[lenderOfferId].status == NOT_AVAILABLE then OfferNotAvailable
    else Proceed
  }

  /**
   * `updateLoanApplication`: only checks that the referenced offer exists;
   * its status is not looked at.
   */
  function UpdateCheck(offers: map<int, Offer>, lenderOfferId: int): (d: Decision)
    ensures d != OfferNotAvailable
    ensures d == Proceed <==> lenderOfferId in offers
  {
    if lenderOfferId !in offers then OfferMissing else Proceed
  }

  /**
   * Every offer that admits a new application admits an update, but an
   * update may point an application at an offer that is NOT_AVAILABLE,
   * which creation refuses: the two handlers disagree on which offers a
   * loan application may reference.
   */
  lemma UpdateAdmitsUnavailableOffer(offers: map<int, Offer>, lenderOfferId: int)
    ensures CreateCheck(offers, lenderOfferId) == Proceed ==> UpdateCheck(offers, lenderOfferId) == Proceed
    ensures UpdateCheck(offers, lenderOfferId) == Proceed && CreateCheck(offers, lenderOfferId) != Proceed <==>
      lenderOfferId in offers && offers[lenderOfferId].status == NOT_AVAILABLE
  {
  }
}
