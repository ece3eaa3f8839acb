/**
  The two stores close the same auctions. The durable store's filter selects
  a record exactly when the in-memory store's test selects the auction it was
  made from, and one sweep of either store leaves them holding the same data.
 */
module StoreParity {

  import opened Wrappers
  import opened GoTime
  import opened AuctionEntity
  import opened AuctionDurable
  import opened AuctionMock

  /** The records the durable store holds for the auctions of an in-memory store. */
  function ToRecords(auctions: map<string, Auction>): (records: map<string, AuctionEntityMongo>)
    ensures records.Keys == auctions.Keys
    ensures KeyedById(auctions) ==> RecordsKeyedById(records)
  {
    map id | id in auctions :: ToRecord(auctions[id])
  }

  /** The filter matches the stored record exactly when the in-memory sweep would close the auction. */
  lemma FilterParity(a: Auction, now: int, duration: int)
    ensures Matches(CreateExpiredAuctionsFilter(duration, now), ToRecord(a)) <==> IsExpired(a, now, duration)
  {
  }

  /** Sweeping the in-memory store and then storing its auctions equals sweeping the stored records. */
  lemma SweepParity(auctions: map<string, Auction>, now: int, duration: int)
    ensures ToRecords(CloseExpired(auctions, now, duration)) == ExpiredClosed(ToRecords(auctions), now, duration)
  {
  }

  /**
    Creating an auction in either store, when the durable insert succeeds,
    leaves the durable store holding the records of the in-memory one.
   */
  lemma CreateParity(auctions: map<string, Auction>, a: Auction)
    ensures ToRecords(auctions[a.id := a]) == ToRecords(auctions)[a.id := ToRecord(a)]
  {
  }

  /**
    Creating the same auction in an in-memory store and in a durable store
    that holds its records. The in-memory store always takes it. The durable
    insert succeeds exactly for a new id without a driver fault, and the
    stores then still agree. For an id already present the durable insert
    is refused and changes nothing. A fault on a new id leaves the stores
    agreeing only when the server stored the record before the fault.
   */
  method CreateBothStores(mock: AuctionRepositoryMock, durable: AuctionRepository, a: Auction,
                          fault: bool, writtenBeforeFault: bool)
    returns (err: Option<InternalError>)
    requires mock.Valid() && durable.collection.Valid()
    requires durable.collection.records == ToRecords(mock.auctions)
    modifies mock, durable.collection
    ensures mock.Valid() && durable.collection.Valid()
    ensures mock.auctions == old(mock.auctions)[a.id := a]
    ensures err == None <==> !fault && a.id !in old(mock.auctions)
    ensures err == None ==> durable.collection.records == ToRecords(mock.auctions)
    ensures a.id in old(mock.auctions) ==> durable.collection.records == old(durable.collection.records)
    ensures a.id !in old(mock.auctions) && fault ==>
      durable.collection.records ==
        if writtenBeforeFault then ToRecords(mock.auctions) else old(durable.collection.records)
  {
    var mockErr := mock.CreateAuction(a);
    err := durable.CreateAuction(a, fault, writtenBeforeFault);
    CreateParity(old(mock.auctions), a);
  }

  /**
    A durable collection loaded with the records of an in-memory store, both
    swept at the same instant with the same setting (the durable sweep
    succeeding), still holds the records of the in-memory store.
   */
  method SweepBothStores(mock: AuctionRepositoryMock, now: int, parsed: Option<int>) returns (durable: Collection)
    requires mock.Valid()
    modifies mock
    ensures mock.Valid() && fresh(durable) && durable.Valid()
    ensures mock.auctions == CloseExpired(old(mock.auctions), now, AuctionDuration(parsed))
    ensures durable.records == ToRecords(mock.auctions)
  {
    durable := new Collection(ToRecords(mock.auctions));
    var repo := new AuctionRepository(durable);
    repo.CheckAndCloseExpiredAuctions(now, parsed, false);
    mock.MonitorAndCloseExpiredAuctions(now, parsed);
    SweepParity(old(mock.auctions), now, AuctionDuration(parsed));
  }

}
