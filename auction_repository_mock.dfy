/**
  The in-memory auction store: `AuctionRepositoryMock`, a map from auction id
  to auction that its methods update in place. Its expiry pass walks the map
  once and completes every Active auction that has outlived the duration.
 */
module AuctionMock {

  import opened Wrappers
  import opened GoTime
  import opened AuctionEntity
  import AuctionDurable

  /**
    The sweep's test for one auction: Active, and its `Unix()` seconds
    strictly before `now` minus the duration in whole seconds. Comparing the
    truncated seconds is the same as comparing the exact start instant with
    that whole second.
   */
  function IsExpired(a: Auction, now: int, duration: int): (expired: bool)
    ensures expired <==> a.status == Active && EpochNanos(a.timestamp) < (now - WholeSeconds(duration)) * Second
  {
    a.status == Active && a.timestamp.unixSec < now - WholeSeconds(duration)
  }

  /**
    The map after one expiry pass. The same ids remain; only statuses change;
    an auction ends Completed exactly when it was Completed already or was
    Active and its age strictly exceeds the duration.
   */
  function CloseExpired(auctions: map<string, Auction>, now: int, duration: int): (r: map<string, Auction>)
    ensures r.Keys == auctions.Keys
    ensures forall id :: id in auctions ==> r[id] == auctions[id].(status := r[id].status)
    ensures forall id :: id in auctions ==>
      (r[id].status == Completed <==>
        auctions[id].status == Completed
        || (auctions[id].status == Active && now - auctions[id].timestamp.unixSec > WholeSeconds(duration)))
  {
    map id | id in auctions ::
      if IsExpired(auctions[id], now, duration) then auctions[id].(status := Completed) else auctions[id]
  }

  /** A second pass with the same clock reading and duration gives the same map as one. */
  lemma CloseExpiredIdempotent(auctions: map<string, Auction>, now: int, duration: int)
    ensures CloseExpired(CloseExpired(auctions, now, duration), now, duration)
         == CloseExpired(auctions, now, duration)
  {
  }

  /**
    The boundary is strict: an Active auction whose age in seconds equals the
    duration stays Active, and one a second older is completed.
   */
  lemma ExactAgeStaysActive(a: Auction, now: int, duration: int)
    requires a.status == Active
    ensures a.timestamp.unixSec == now - WholeSeconds(duration) ==>
      CloseExpired(map[a.id := a], now, duration)[a.id] == a
    ensures a.timestamp.unixSec == now - WholeSeconds(duration) - 1 ==>
      CloseExpired(map[a.id := a], now, duration)[a.id] == a.(status := Completed)
  {
  }

  /** `AuctionRepositoryMock`. */
  class AuctionRepositoryMock {
    var auctions: map<string, Auction>

    /** Every auction is stored under its own id, as create and save put it there. */
    ghost predicate Valid()
      reads this
    {
      KeyedById(auctions)
    }

    /** `NewAuctionRepositoryMock`: an empty store. */
    constructor ()
      ensures Valid() && auctions == map[]
    {
      auctions := map[];
    }

    /** `CreateAuction`: stores the auction under its id, replacing any earlier one; never fails. */
    method CreateAuction(auctionEntity: Auction) returns (err: Option<InternalError>)
      requires Valid()
      modifies this
      ensures Valid()
      ensures err == None
      ensures auctions == old(auctions)[auctionEntity.id := auctionEntity]
    {
      auctions := auctions[auctionEntity.id := auctionEntity];
      return None;
    }

    /**
      `FindAuctionById`: the stored auction, or "Auction not found" and no
      auction when the id is absent. The store is left as it was.
     */
    method FindAuctionById(id: string) returns (auction: Option<Auction>, err: Option<InternalError>)
      requires Valid()
      ensures id in auctions ==> auction == Some(auctions[id]) && auction.value.id == id && err == None
      ensures id !in auctions ==> auction == None && err == Some(InternalServerError("Auction not found"))
    {
      if id !in auctions {
        return None, Some(InternalServerError("Auction not found"));
      }
      return Some(auctions[id]), None;
    }

    /** `SaveAuction`: stores the auction under its id, replacing any earlier one. */
    method SaveAuction(auction: Auction)
      requires Valid()
      modifies this
      ensures Valid()
      ensures auctions == old(auctions)[auction.id := auction]
    {
      auctions := auctions[auction.id := auction];
    }

    /**
      `MonitorAndCloseExpiredAuctions`: one pass over the map with the clock
      reading `now` and the duration resolved from `parsed`, completing each
      expired auction in place.
     */
    method MonitorAndCloseExpiredAuctions(now: int, parsed: Option<int>)
      requires Valid()
      modifies this
      ensures Valid()
      ensures auctions == CloseExpired(old(auctions), now, AuctionDurable.AuctionDuration(parsed))
    {
      var auctionDuration := AuctionDurable.AuctionDuration(parsed);
      ghost var before := auctions;
      var pending := auctions.Keys;
      while pending != {}
        invariant pending <= before.Keys
        invariant auctions.Keys == before.Keys
        invariant forall id :: id in pending ==> auctions[id] == before[id]
        invariant forall id :: id in before && id !in pending ==>
          auctions[id] == CloseExpired(before, now, auctionDuration)[id]
        decreases pending
      {
        var id :| id in pending;
        var auction := auctions[id];
        if IsExpired(auction, now, auctionDuration) {
          auction := auction.(status := Completed);
          auctions := auctions[id := auction];
        }
        pending := pending - {id};
      }
    }
  }

  /** Create an auction in a fresh store, then find it by id: it comes back whole. */
  method CreateThenFind(a: Auction) returns (found: Option<Auction>, err: Option<InternalError>)
    ensures found == Some(a) && err == None
  {
    var repo := new AuctionRepositoryMock();
    var createErr := repo.CreateAuction(a);
    found, err := repo.FindAuctionById(a.id);
  }

  /**
    A store holding an auction started forty minutes ago, one started ten
    seconds ago and a Completed one started an hour ago, swept a little after
    `now` with no duration configured: only the first is completed.
   */
  method MixedStatusScenario(now: Time, sweepNow: int)
    returns (expired: AuctionStatus, notExpired: AuctionStatus, completed: AuctionStatus)
    requires now.unixSec <= sweepNow <= now.unixSec + 590
    ensures expired == Completed && notExpired == Active && completed == Completed
  {
    AddWholeSeconds(now, -40 * 60);
    AddWholeSeconds(now, -10);
    AddWholeSeconds(now, -60 * 60);
    var a1 := Auction("auction1", "Expired Product", "", "", New, Active, Add(now, -40 * Minute));
    var a2 := Auction("auction2", "Not Expired Product", "", "", New, Active, Add(now, -10 * Second));
    var a3 := Auction("auction3", "Completed Product", "", "", New, Completed, Add(now, -60 * Minute));
    var repo := new AuctionRepositoryMock();
    repo.SaveAuction(a1);
    repo.SaveAuction(a2);
    repo.SaveAuction(a3);
    repo.MonitorAndCloseExpiredAuctions(sweepNow, None);
    var r1, e1 := repo.FindAuctionById("auction1");
    var r2, e2 := repo.FindAuctionById("auction2");
    var r3, e3 := repo.FindAuctionById("auction3");
    expired, notExpired, completed := r1.value.status, r2.value.status, r3.value.status;
  }

}
