/**
  The durable auction store: the Mongo-backed `AuctionRepository`.

  The Mongo collection is modelled as a map from `_id` to stored record, and
  the driver's `InsertOne` and `UpdateMany` by their effect on that map. The
  pure decisions (which duration applies, which records are expired, what the
  update sets) are functions; creating, sweeping and the monitor loop are
  methods on the repository.
 */
module AuctionDurable {

  import opened Wrappers
  import opened GoTime
  import opened AuctionEntity

  /** `AuctionEntityMongo`: the stored record; `timestamp` is in Unix seconds. */
  datatype AuctionEntityMongo = AuctionEntityMongo(
    id: string,
    productName: string,
    category: string,
    description: string,
    condition: ProductCondition,
    status: AuctionStatus,
    timestamp: int)

  /** The entity read back from a record: the instant falls on a whole second. */
  function FromRecord(rec: AuctionEntityMongo): Auction
  {
    Auction(rec.id, rec.productName, rec.category, rec.description,
            rec.condition, rec.status, Time(rec.timestamp, 0))
  }

  /**
    The field-by-field conversion in `CreateAuction`. Every field is carried
    over; of the start instant only its Unix seconds survive.
   */
  function ToRecord(a: Auction): (rec: AuctionEntityMongo)
    ensures rec.id == a.id && rec.status == a.status
    ensures rec.timestamp == a.timestamp.unixSec
    ensures FromRecord(rec) == a.(timestamp := Time(a.timestamp.unixSec, 0))
  {
    AuctionEntityMongo(a.id, a.productName, a.category, a.description,
                       a.condition, a.status, a.timestamp.unixSec)
  }

  /** Storing loses nothing exactly when the start instant is a whole second. */
  lemma RecordRoundTrip(a: Auction)
    ensures FromRecord(ToRecord(a)) == a <==> a.timestamp.nsec == 0
  {
  }

  /** Reading a record back and storing it again gives the same record. */
  lemma RecordRoundTripFromStore(rec: AuctionEntityMongo)
    ensures ToRecord(FromRecord(rec)) == rec
  {
  }

  /** The record under `id`, if any, has that `_id`. */
  ghost predicate KeyedAt(records: map<string, AuctionEntityMongo>, id: string)
  {
    id in records ==> records[id].id == id
  }

  /** The collection keeps every record under its own `_id`. */
  ghost predicate RecordsKeyedById(records: map<string, AuctionEntityMongo>)
  {
    forall id :: KeyedAt(records, id)
  }

  /** The duration used when the setting is absent or does not parse. */
  const DefaultAuctionDuration: int := 10 * Minute

  /**
    `getAuctionDuration`: `parsed` is what `time.ParseDuration` made of the
    `AUCTION_INTERVAL` setting, `None` when it failed (which includes an unset
    or empty setting). A failure falls back to ten minutes, never to an error.
   */
  function AuctionDuration(parsed: Option<int>): (d: int)
    ensures parsed.Some? ==> d == parsed.value
    ensures parsed.None? ==> d == 10 * Minute && WholeSeconds(d) == 600
  {
    match parsed
    case Some(duration) => duration
    case None => DefaultAuctionDuration
  }

  /** `expiredAuctionsFilter`: `status` equal to `status`, `timestamp` `$lt` `timestampLt`. */
  datatype ExpiredAuctionsFilter = ExpiredAuctionsFilter(timestampLt: int, status: AuctionStatus)

  /**
    How the store engine is taken to evaluate the filter document against one
    record: equality on `status`, and `$lt` on `timestamp`.
   */
  function Matches(f: ExpiredAuctionsFilter, rec: AuctionEntityMongo): bool
  {
    rec.status == f.status && rec.timestamp < f.timestampLt
  }

  /**
    `createExpiredAuctionsFilter`: a record matches exactly when it is Active
    and its age in seconds strictly exceeds the duration in whole seconds, so
    an auction whose age equals the duration is not selected.
   */
  function CreateExpiredAuctionsFilter(auctionDuration: int, currentTime: int): (f: ExpiredAuctionsFilter)
    ensures f.status == Active
    ensures forall rec :: Matches(f, rec) <==>
      rec.status == Active && currentTime - rec.timestamp > WholeSeconds(auctionDuration)
  {
    ExpiredAuctionsFilter(currentTime - WholeSeconds(auctionDuration), Active)
  }

  /** `updateCompletedStatus`: the status the update writes. */
  datatype UpdateCompletedStatus = UpdateCompletedStatus(setStatus: AuctionStatus)

  /** The intended effect of the update document on one record: set its status. */
  function Apply(u: UpdateCompletedStatus, rec: AuctionEntityMongo): AuctionEntityMongo
  {
    rec.(status := u.setStatus)
  }

  /** `createUpdateCompletedStatus`: applied to any record, it completes it and touches nothing else. */
  function CreateUpdateCompletedStatus(): (u: UpdateCompletedStatus)
    ensures forall rec :: Apply(u, rec) == rec.(status := Completed)
  {
    UpdateCompletedStatus(Completed)
  }

  /** `UpdateMany(filter, update)`: the update applied to every record the filter matches. */
  function UpdateManyEffect(records: map<string, AuctionEntityMongo>, f: ExpiredAuctionsFilter,
                            u: UpdateCompletedStatus): map<string, AuctionEntityMongo>
  {
    map id | id in records :: if Matches(f, records[id]) then Apply(u, records[id]) else records[id]
  }

  /**
    The collection after one successful sweep with the filter and update the
    repository builds. The same records remain; only statuses change; a record
    ends Completed exactly when it was Completed already or was Active and
    expired; so no record goes back from Completed to Active.
   */
  function ExpiredClosed(records: map<string, AuctionEntityMongo>, now: int, duration: int)
    : (r: map<string, AuctionEntityMongo>)
    ensures r.Keys == records.Keys
    ensures forall id :: id in records ==> r[id] == records[id].(status := r[id].status)
    ensures forall id :: id in records ==>
      (r[id].status == Completed <==>
        records[id].status == Completed
        || (records[id].status == Active && now - records[id].timestamp > WholeSeconds(duration)))
  {
    UpdateManyEffect(records, CreateExpiredAuctionsFilter(duration, now), CreateUpdateCompletedStatus())
  }

  /** A second sweep at the same instant with the same duration changes nothing. */
  lemma ExpiredClosedIdempotent(records: map<string, AuctionEntityMongo>, now: int, duration: int)
    ensures ExpiredClosed(ExpiredClosed(records, now, duration), now, duration)
         == ExpiredClosed(records, now, duration)
  {
  }

  /**
    `checkAndCloseExpiredAuctions` as a function of the store: with the
    duration resolved from `parsed`, the expired records are completed, unless
    the driver reports a fault, in which case nothing is applied. The same ids
    remain, only statuses change, and a record ends Completed exactly when it
    was Completed already or the sweep went through and it was Active and
    expired.
   */
  function SweepOnce(records: map<string, AuctionEntityMongo>, now: int, parsed: Option<int>, fault: bool)
    : (r: map<string, AuctionEntityMongo>)
    ensures r.Keys == records.Keys
    ensures forall id :: id in records ==> r[id] == records[id].(status := r[id].status)
    ensures forall id :: id in records ==>
      (r[id].status == Completed <==>
        records[id].status == Completed
        || (!fault && records[id].status == Active
            && now - records[id].timestamp > WholeSeconds(AuctionDuration(parsed))))
  {
    if fault then records else ExpiredClosed(records, now, AuctionDuration(parsed))
  }

  /**
    What the monitor goroutine observes, in order: a ticker tick (with the
    clock reading, the parsed setting and whether the driver faults on that
    sweep), or the owner calling `Stop`, which cancels the context.
   */
  datatype Event = Tick(now: int, parsed: Option<int>, fault: bool) | Cancel

  /**
    The store after the monitor loop has run over `events` from a live
    context: no sweep adds or removes a record.
   */
  function RunTrace(records: map<string, AuctionEntityMongo>, events: seq<Event>)
    : (r: map<string, AuctionEntityMongo>)
    ensures r.Keys == records.Keys
    decreases |events|
  {
    if events == [] then records
    else match events[0]
      case Cancel => records
      case Tick(now, parsed, fault) => RunTrace(SweepOnce(records, now, parsed, fault), events[1..])
  }

  /** How many sweeps the monitor loop starts over `events` from a live context. */
  function SweepsBeforeCancel(events: seq<Event>): nat
    decreases |events|
  {
    if events == [] || events[0].Cancel? then 0 else 1 + SweepsBeforeCancel(events[1..])
  }

  /** A trace with no cancellation starts with a tick and has none in its tail either. */
  lemma NoCancelInTail(events: seq<Event>)
    requires events != [] && Cancel !in events
    ensures events[0].Tick? && Cancel !in events[1..]
  {
    assert events[0] in events;
    forall j | 0 <= j < |events[1..]| ensures events[1..][j] != Cancel {
      assert events[1..][j] == events[j + 1];
    }
  }

  /**
    Every tick before the first cancellation starts exactly one sweep, and
    nothing after the cancellation has any effect on the store.
   */
  lemma {:induction false} NoSweepAfterCancel(records: map<string, AuctionEntityMongo>,
                                              before: seq<Event>, after: seq<Event>)
    requires Cancel !in before
    ensures SweepsBeforeCancel(before + [Cancel] + after) == |before|
    ensures RunTrace(records, before + [Cancel] + after) == RunTrace(records, before)
  {
    if before == [] {
      assert before + [Cancel] + after == [Cancel] + after;
    } else {
      var e := before[0];
      NoCancelInTail(before);
      assert (before + [Cancel] + after)[1..] == before[1..] + [Cancel] + after;
      NoSweepAfterCancel(SweepOnce(records, e.now, e.parsed, e.fault), before[1..], after);
    }
  }

  /** A trace without cancellation sweeps once per tick. */
  lemma {:induction false} EveryTickSweeps(events: seq<Event>)
    requires Cancel !in events
    ensures SweepsBeforeCancel(events) == |events|
  {
    if events != [] {
      NoCancelInTail(events);
      EveryTickSweeps(events[1..]);
    }
  }

  /**
    Whatever the monitor loop does, the store changes only statuses and never
    touches a Completed record.
   */
  lemma {:induction false} RunTraceOnlyCompletes(records: map<string, AuctionEntityMongo>, events: seq<Event>)
    ensures forall id :: id in records ==>
      RunTrace(records, events)[id] == records[id].(status := RunTrace(records, events)[id].status)
    ensures forall id :: id in records && records[id].status == Completed ==>
      RunTrace(records, events)[id] == records[id]
    decreases |events|
  {
    if events != [] && events[0].Tick? {
      var e := events[0];
      var next := SweepOnce(records, e.now, e.parsed, e.fault);
      RunTraceOnlyCompletes(next, events[1..]);
    }
  }

  /**
    A successful tick after a live trace is one more sweep of the store the
    trace left.
   */
  lemma {:induction false} LastSweepIsOneMoreSweep(records: map<string, AuctionEntityMongo>,
                                                   events: seq<Event>, now: int, parsed: Option<int>)
    requires Cancel !in events
    ensures RunTrace(records, events + [Tick(now, parsed, false)])
         == ExpiredClosed(RunTrace(records, events), now, AuctionDuration(parsed))
    decreases |events|
  {
    var tick := Tick(now, parsed, false);
    if events == [] {
      assert events + [tick] == [tick];
      assert [tick][1..] == [];
    } else {
      var e := events[0];
      NoCancelInTail(events);
      assert (events + [tick])[1..] == events[1..] + [tick];
      LastSweepIsOneMoreSweep(SweepOnce(records, e.now, e.parsed, e.fault), events[1..], now, parsed);
    }
  }

  /**
    Once a successful tick has run after a live trace, every record that was
    Active and expired at that tick is Completed, and no record still Active
    is expired at that tick.
   */
  lemma LastSweepLeavesNoExpired(records: map<string, AuctionEntityMongo>,
                                 events: seq<Event>, now: int, parsed: Option<int>)
    requires Cancel !in events
    ensures forall id :: id in records && records[id].status == Active
                         && now - records[id].timestamp > WholeSeconds(AuctionDuration(parsed)) ==>
      RunTrace(records, events + [Tick(now, parsed, false)])[id].status == Completed
    ensures forall id :: id in records && RunTrace(records, events + [Tick(now, parsed, false)])[id].status == Active ==>
      now - records[id].timestamp <= WholeSeconds(AuctionDuration(parsed))
  {
    LastSweepIsOneMoreSweep(records, events, now, parsed);
    RunTraceOnlyCompletes(records, events);
  }

  /** `*mongo.Collection`, reduced to the records it holds and the two calls the repository makes. */
  class Collection {
    var records: map<string, AuctionEntityMongo>

    ghost predicate Valid()
      reads this
    {
      RecordsKeyedById(records)
    }

    /** `database.Collection("auctions")`: a handle on the records the collection holds already. */
    constructor (initial: map<string, AuctionEntityMongo>)
      requires RecordsKeyedById(initial)
      ensures Valid() && records == initial
    {
      records := initial;
    }

    /**
      `InsertOne`: fails when the driver faults or a record with the same
      `_id` exists already; otherwise adds the record under its `_id`. A fault
      can be reported after the server stored the record (a write-concern
      error, a time-out after the write): `writtenBeforeFault` says whether it
      was, and then the new record is there although the call failed.
     */
    method InsertOne(rec: AuctionEntityMongo, fault: bool, writtenBeforeFault: bool) returns (ok: bool)
      requires Valid()
      modifies this
      ensures Valid()
      ensures ok <==> !fault && rec.id !in old(records)
      ensures records ==
        if rec.id !in old(records) && (!fault || writtenBeforeFault) then old(records)[rec.id := rec]
        else old(records)
    {
      ok := !fault && rec.id !in records;
      if rec.id !in records && (!fault || writtenBeforeFault) {
        ghost var before := records;
        records := records[rec.id := rec];
        forall id ensures KeyedAt(records, id) {
          assert KeyedAt(before, id);
        }
      }
    }

    /** `UpdateMany`: applies the update to every matching record unless the driver faults. */
    method UpdateMany(f: ExpiredAuctionsFilter, u: UpdateCompletedStatus, fault: bool) returns (ok: bool)
      requires Valid()
      modifies this
      ensures Valid()
      ensures ok == !fault
      ensures records == if ok then UpdateManyEffect(old(records), f, u) else old(records)
    {
      ok := !fault;
      if ok {
        ghost var before := records;
        records := UpdateManyEffect(records, f, u);
        forall id ensures KeyedAt(records, id) {
          assert KeyedAt(before, id);
        }
      }
    }
  }

  /** `AuctionRepository`: the collection and whether its monitor's context is cancelled. */
  class AuctionRepository {
    const collection: Collection
    var cancelled: bool

    /** `NewAuctionRepository`, less the goroutine it starts (see `MonitorAndCloseExpiredAuctions`). */
    constructor (collection: Collection)
      ensures this.collection == collection && !cancelled
    {
      this.collection := collection;
      cancelled := false;
    }

    /**
      `CreateAuction`: stores the converted record. A failed insert reports
      "Error trying to insert auction"; the collection is then as it was,
      unless the driver failed after the new record was stored.
     */
    method CreateAuction(auctionEntity: Auction, fault: bool, writtenBeforeFault: bool)
      returns (err: Option<InternalError>)
      requires collection.Valid()
      modifies collection
      ensures collection.Valid()
      ensures err == None <==> !fault && auctionEntity.id !in old(collection.records)
      ensures err != None ==> err == Some(InternalServerError("Error trying to insert auction"))
      ensures err == None ==>
        collection.records == old(collection.records)[auctionEntity.id := ToRecord(auctionEntity)]
      ensures err != None ==>
        collection.records ==
          if auctionEntity.id !in old(collection.records) && writtenBeforeFault
          then old(collection.records)[auctionEntity.id := ToRecord(auctionEntity)]
          else old(collection.records)
    {
      var auctionEntityMongo := ToRecord(auctionEntity);
      var ok := collection.InsertOne(auctionEntityMongo, fault, writtenBeforeFault);
      if !ok {
        return Some(InternalServerError("Error trying to insert auction"));
      }
      return None;
    }

    /** `updateExpiredAuctions`: a failed update is dropped; the caller sees nothing. */
    method UpdateExpiredAuctions(filter: ExpiredAuctionsFilter, update: UpdateCompletedStatus, fault: bool)
      requires collection.Valid()
      modifies collection
      ensures collection.Valid()
      ensures collection.records ==
        if fault then old(collection.records) else UpdateManyEffect(old(collection.records), filter, update)
    {
      var ok := collection.UpdateMany(filter, update, fault);
    }

    /** `checkAndCloseExpiredAuctions`, with the clock reading `now` and the parsed setting passed in. */
    method CheckAndCloseExpiredAuctions(now: int, parsed: Option<int>, fault: bool)
      requires collection.Valid()
      modifies collection
      ensures collection.Valid()
      ensures collection.records == SweepOnce(old(collection.records), now, parsed, fault)
    {
      var auctionDuration := AuctionDuration(parsed);
      var filter := CreateExpiredAuctionsFilter(auctionDuration, now);
      var update := CreateUpdateCompletedStatus();
      UpdateExpiredAuctions(filter, update, fault);
    }

    /** `Stop`: cancels the monitor's context; calling it again changes nothing. */
    method Stop()
      modifies this
      ensures cancelled
    {
      cancelled := true;
    }

    /**
      One pass of the `select`: a tick runs one sweep, leaving the store as
      `SweepOnce` of the old one, and the trace `rest` then continues from
      it; a cancellation is the owner's `Stop`, after which the context is
      done and the store is as it was.
     */
    method MonitorStep(e: Event, ghost rest: seq<Event>) returns (swept: bool)
      requires collection.Valid() && !cancelled
      modifies this, collection
      ensures collection.Valid()
      ensures swept == e.Tick? && cancelled == e.Cancel?
      ensures swept ==> collection.records == SweepOnce(old(collection.records), e.now, e.parsed, e.fault)
      ensures swept ==> RunTrace(old(collection.records), [e] + rest) == RunTrace(collection.records, rest)
      ensures swept ==> SweepsBeforeCancel([e] + rest) == 1 + SweepsBeforeCancel(rest)
      ensures !swept ==> collection.records == old(collection.records)
      ensures !swept ==> RunTrace(collection.records, [e] + rest) == collection.records
      ensures !swept ==> SweepsBeforeCancel([e] + rest) == 0
    {
      assert ([e] + rest)[0] == e && ([e] + rest)[1..] == rest;
      match e {
        case Tick(now, parsed, fault) =>
          CheckAndCloseExpiredAuctions(now, parsed, fault);
          swept := true;
        case Cancel =>
          Stop();
          swept := false;
      }
    }

    /**
      `MonitorAndCloseExpiredAuctions` over a finite trace of what the
      goroutine observes. Each tick sweeps once; a cancellation stops the
      loop, so later ticks start no sweep. A context already cancelled when
      the loop starts ends it at once.
     */
    method MonitorAndCloseExpiredAuctions(events: seq<Event>) returns (sweeps: nat)
      requires collection.Valid()
      modifies this, collection
      ensures collection.Valid()
      ensures cancelled == (old(cancelled) || Cancel in events)
      ensures old(cancelled) ==> sweeps == 0 && collection.records == old(collection.records)
      ensures !old(cancelled) ==> sweeps == SweepsBeforeCancel(events)
      ensures !old(cancelled) ==> collection.records == RunTrace(old(collection.records), events)
    {
      sweeps := 0;
      if cancelled {
        return;
      }
      ghost var initial := collection.records;
      var i := 0;
      while i < |events| && !cancelled
        invariant 0 <= i <= |events|
        invariant collection.Valid()
        invariant cancelled == (Cancel in events[..i])
        invariant !cancelled ==> RunTrace(initial, events) == RunTrace(collection.records, events[i..])
        invariant !cancelled ==> SweepsBeforeCancel(events) == sweeps + SweepsBeforeCancel(events[i..])
        invariant cancelled ==>
          collection.records == RunTrace(initial, events) && sweeps == SweepsBeforeCancel(events)
      {
        assert events[i..] == [events[i]] + events[i + 1..];
        assert events[..i + 1] == events[..i] + [events[i]];
        var swept := MonitorStep(events[i], events[i + 1..]);
        if swept {
          sweeps := sweeps + 1;
        }
        i := i + 1;
      }
      if !cancelled {
        assert events[i..] == [];
        assert events[..i] == events;
      }
    }
  }

}
