/**
  The auction entity as the storage layer sees it. Only the fields that the
  stores copy or inspect are modelled.
 */
module AuctionEntity {

  import opened GoTime

  /** `auction_entity.AuctionStatus`. */
  datatype AuctionStatus = Active | Completed

  /** `auction_entity.ProductCondition`; the stores only copy it. */
  datatype ProductCondition = New | Used | Refurbished

  /** `auction_entity.Auction`; `timestamp` is when the auction began. */
  datatype Auction = Auction(
    id: string,
    productName: string,
    category: string,
    description: string,
    condition: ProductCondition,
    status: AuctionStatus,
    timestamp: Time)

  /** `internal_error.InternalError` as built by `NewInternalServerError(message)`. */
  datatype InternalError = InternalServerError(message: string)

  /** Every entry is stored under its own id. */
  ghost predicate KeyedById(m: map<string, Auction>)
  {
    forall id :: id in m ==> m[id].id == id
  }

}
