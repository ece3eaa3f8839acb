# Auction expiry in the auction store

This project models the storage layer for auctions in `internal/infra/database/auction`. It has two stores behind the same method names:

- **In-memory store** (`AuctionRepositoryMock`). A map from auction id to auction. Create and save overwrite the entry for the id. Find fails with "Auction not found" when the id is absent. The expiry call makes one pass over the map and sets every auction that is `Active` and older than the configured duration to `Completed`.
- **Durable store** (`AuctionRepository`). A Mongo collection, modelled as a map from `_id` to stored record. `CreateAuction` converts the entity into a record, field by field, with the start instant stored as Unix seconds. A background loop sweeps the collection on each ticker tick until its context is cancelled. Each sweep is one `UpdateMany`: its filter is "status is Active and timestamp < now − duration in whole seconds", and its update is "status := Completed".

The clock reading `now` is a parameter. The `AUCTION_INTERVAL` setting is modelled by the result of parsing it: `Some(nanoseconds)`, or `None` when parsing failed. Whether a driver call faults is a boolean parameter. For an insert, a second parameter says whether the server had already stored the record when the driver reported the error. The monitor goroutine is modelled as a finite trace of what it observes: `Tick(now, parsed, fault)` events and a `Cancel` event. `Cancel` is the owner calling `Stop`.

Modules:
- `GoTime` (`go_time.dfy`): durations in nanoseconds, `time.Time` as Unix seconds plus nanoseconds, and `t.Add(d)`. It also has `int64(d.Seconds())`, which truncates toward zero as Go does.
- `AuctionEntity` (`auction_entity.dfy`): the auction, its status and condition, and the internal error.
- `AuctionDurable` (`create_auction.dfy`): the durable store.
- `AuctionMock` (`auction_repository_mock.dfy`): the in-memory store.
- `StoreParity` (`store_parity.dfy`): the two stores close the same auctions.

The expiry boundary is strict in both stores. An auction whose age in seconds equals the duration stays `Active`; one a second older is closed (`AuctionMock.ExactAgeStaysActive`). Reading "older than the duration" as inclusive (age ≥ duration) does not match this code; the model follows the code.

The durable insert fails when the driver faults, and also when a record with the same `_id` already exists, because `_id` is the collection's primary key. The in-memory `CreateAuction` overwrites in that case instead. So the two stores agree on creation only for new ids: for an id already present the in-memory store overwrites the entry and the durable store refuses the insert and keeps the old record (`StoreParity.CreateBothStores`).

## Model

| member | source | states |
|---|---|---|
| GoTime.WholeSeconds | internal/infra/database/auction/create_auction.go:105 | `int64(d.Seconds())` is the duration in whole seconds, truncated toward zero for positive and negative durations |
| GoTime.Add | internal/infra/database/auction/create_auction_test.go:47 | `t.Add(d)` is the instant exactly `d` nanoseconds later, with the nanosecond part normalised |
| GoTime.AddWholeSeconds | internal/infra/database/auction/create_auction_test.go:72 | adding whole seconds shifts `Unix()` by that many seconds and keeps the nanoseconds |
| AuctionDurable.ToRecord | internal/infra/database/auction/create_auction.go:43-51 | the stored record keeps id, product name, category, description, condition and status, and stores the start instant as its Unix seconds |
| AuctionDurable.RecordRoundTrip | internal/infra/database/auction/create_auction.go:43-51 | reading a stored auction back gives the original exactly when its start instant has no sub-second part |
| AuctionDurable.RecordRoundTripFromStore | internal/infra/database/auction/create_auction.go:15-23 | storing an auction read from a record reproduces the record |
| AuctionDurable.AuctionDuration | internal/infra/database/auction/create_auction.go:61-69 | the parsed setting when parsing succeeds; exactly ten minutes (600 whole seconds) when it fails, including an unset or empty setting |
| AuctionDurable.CreateExpiredAuctionsFilter | internal/infra/database/auction/create_auction.go:102-107 | the filter's status is Active, and a record matches iff it is Active and its age strictly exceeds the duration in whole seconds (`$lt` bound `now − seconds`) |
| AuctionDurable.CreateUpdateCompletedStatus | internal/infra/database/auction/create_auction.go:113-117 | the update sets every record it is applied to to Completed and changes no other field, whatever the filter or the time |
| AuctionDurable.ExpiredClosed | internal/infra/database/auction/create_auction.go:87-95 | after a successful sweep the same ids remain and only statuses change; a record is Completed iff it was Completed already or was Active and expired |
| AuctionDurable.ExpiredClosedIdempotent | internal/infra/database/auction/create_auction.go:102-117 | a second sweep at the same instant with the same duration changes nothing |
| AuctionDurable.SweepOnce | internal/infra/database/auction/create_auction.go:87-95 | one sweep keeps the same ids and changes only statuses; a record ends Completed iff it was Completed already, or the driver did not fault and it was Active and older than the duration resolved from the setting |
| AuctionDurable.RunTrace | internal/infra/database/auction/create_auction.go:75-84 | the monitor loop over a trace of ticks and a cancellation never adds or removes a record |
| AuctionDurable.NoSweepAfterCancel | internal/infra/database/auction/create_auction.go:75-84 | each tick before the first cancellation starts exactly one sweep; events after the cancellation have no effect on the store |
| AuctionDurable.EveryTickSweeps | internal/infra/database/auction/create_auction.go:76-79 | while the context is live, every tick starts one sweep |
| AuctionDurable.RunTraceOnlyCompletes | internal/infra/database/auction/create_auction.go:71-124 | over any trace the monitor changes only statuses and never touches a Completed record |
| AuctionDurable.LastSweepIsOneMoreSweep | internal/infra/database/auction/create_auction.go:75-95 | a successful tick after a trace with no cancellation leaves exactly `ExpiredClosed` of the store that trace left |
| AuctionDurable.LastSweepLeavesNoExpired | internal/infra/database/auction/create_auction.go:75-105 | after a successful sweep with no cancellation before it, no record that was Active and expired at that sweep is still Active, and any record still Active is no older than the duration |
| AuctionDurable.Collection.constructor | internal/infra/database/auction/create_auction.go:33 | the handle on the `auctions` collection sees exactly the records the collection already holds, each under its own `_id` |
| AuctionDurable.Collection.InsertOne | internal/infra/database/auction/create_auction.go:52 | the insert succeeds iff the driver does not fault and the `_id` is new; on success the record is added under its id; a fault reported after the server stored a new record leaves that record stored; otherwise nothing changes |
| AuctionDurable.Collection.UpdateMany | internal/infra/database/auction/create_auction.go:120 | unless the driver faults, the update is applied to exactly the matching records; on a fault nothing changes |
| AuctionDurable.AuctionRepository.constructor | internal/infra/database/auction/create_auction.go:30-38 | the repository uses the given collection, and its context starts live |
| AuctionDurable.AuctionRepository.CreateAuction | internal/infra/database/auction/create_auction.go:40-59 | returns no error and stores the converted record under the id iff the insert succeeds; otherwise returns "Error trying to insert auction", and the collection is unchanged unless the driver failed after the server had stored the new record |
| AuctionDurable.AuctionRepository.UpdateExpiredAuctions | internal/infra/database/auction/create_auction.go:119-124 | applies the update to the matching records, or drops a failed update silently, returning nothing |
| AuctionDurable.AuctionRepository.CheckAndCloseExpiredAuctions | internal/infra/database/auction/create_auction.go:87-95 | with the duration resolved from the setting, completes exactly the expired records, or leaves the store unchanged when the driver faults |
| AuctionDurable.AuctionRepository.Stop | internal/infra/database/auction/create_auction.go:126-128 | the monitor's context is cancelled afterwards, also when it already was |
| AuctionDurable.AuctionRepository.MonitorStep | internal/infra/database/auction/create_auction.go:76-83 | one pass of the `select`: a tick leaves the store as `SweepOnce` of the old one and the trace continues from it; a cancellation sweeps nothing, cancels the context, leaves the store unchanged and ends the trace |
| AuctionDurable.AuctionRepository.MonitorAndCloseExpiredAuctions | internal/infra/database/auction/create_auction.go:71-85 | sweeps once per tick up to the first cancellation and then stops; a context cancelled beforehand means no sweep at all; the store ends as the trace function says |
| AuctionMock.IsExpired | internal/infra/database/auction/auction_repository_mock.go:42 | the test on the truncated `Unix()` seconds selects an auction iff it is Active and its exact start instant lies strictly before the whole second `now − seconds` |
| AuctionMock.CloseExpired | internal/infra/database/auction/auction_repository_mock.go:41-45 | after one pass the same ids remain and only statuses change; an auction is Completed iff it was Completed already or was Active and its age strictly exceeds the duration |
| AuctionMock.CloseExpiredIdempotent | internal/infra/database/auction/auction_repository_mock.go:42-44 | two passes with the same clock reading and duration give the same map as one |
| AuctionMock.ExactAgeStaysActive | internal/infra/database/auction/auction_repository_mock.go:42 | an Active auction whose age equals the duration stays Active; one a second older is completed |
| AuctionMock.AuctionRepositoryMock.constructor | internal/infra/database/auction/auction_repository_mock.go:14-18 | a new store is empty |
| AuctionMock.AuctionRepositoryMock.CreateAuction | internal/infra/database/auction/auction_repository_mock.go:20-23 | stores the auction under its id, overwriting any previous entry and leaving other ids alone; always returns no error |
| AuctionMock.AuctionRepositoryMock.FindAuctionById | internal/infra/database/auction/auction_repository_mock.go:25-31 | returns the stored auction, whose id is the one asked for, and no error; for an absent id returns no auction and "Auction not found"; changes nothing |
| AuctionMock.AuctionRepositoryMock.SaveAuction | internal/infra/database/auction/auction_repository_mock.go:33-35 | stores the auction under its id, overwriting any previous entry and leaving other ids alone |
| AuctionMock.AuctionRepositoryMock.MonitorAndCloseExpiredAuctions | internal/infra/database/auction/auction_repository_mock.go:37-47 | one pass over the map, with the duration resolved from the setting, leaves it as `CloseExpired` describes |
| AuctionMock.CreateThenFind | internal/infra/database/auction/create_auction_test.go:11-37 | an auction created in a fresh store is found by its id with every field intact and no error |
| AuctionMock.MixedStatusScenario | internal/infra/database/auction/create_auction_test.go:88-140 | with the default duration, a sweep completes the auction started forty minutes ago and leaves both the one started ten seconds ago and the Completed one unchanged |
| StoreParity.ToRecords | internal/infra/database/auction/create_auction.go:43-51 | the stored form of an in-memory store has the same ids and stays keyed by id |
| StoreParity.FilterParity | internal/infra/database/auction/create_auction.go:102-106 | the durable filter matches a stored auction iff the in-memory sweep's test (auction_repository_mock.go line 42) selects it |
| StoreParity.SweepParity | internal/infra/database/auction/create_auction.go:87-124 | sweeping the in-memory store and then storing it gives the same records as sweeping the stored records |
| StoreParity.SweepBothStores | internal/infra/database/auction/create_auction.go:87-95 | a durable collection loaded with an in-memory store's records and swept successfully at the same instant ends holding the stored form of the in-memory store, which is `CloseExpired` of its old map |
| StoreParity.CreateBothStores | internal/infra/database/auction/create_auction.go:40-59 | creating one auction in both stores when the durable store holds the in-memory store's records: the in-memory entry is always set; the durable insert succeeds iff the id is new and the driver does not fault, and the stores then still agree; for an existing id the collection is unchanged; a fault on a new id leaves the record stored only if it was written before the fault |
| StoreParity.CreateParity | internal/infra/database/auction/create_auction.go:40-59 | creating a new auction in either store keeps the durable records equal to the stored form of the in-memory map |

## Left out

- The Mongo driver (`database.Collection`, `InsertOne`, `UpdateMany`) is foreign code. The collection is a map, and driver faults are a boolean parameter. The server is taken to evaluate the filter document as `AuctionDurable.Matches` does: equality on `status`, strict `$lt` on `timestamp`. That is an assumption about the server, not a proved property.
- AuctionDurable.Collection.UpdateMany: a failed `UpdateMany` is modelled as applying nothing. A real fault can apply the update to some of the matching records and not others.
- The BSON encoding of the update document is not modelled. Its field tag is `$set.status`, which may not be the `{"$set": {"status": …}}` document the store expects. The model gives the update its intended effect, "status := Completed".
- The goroutine, the ticker, the context and `time.Now()` are concurrency and clock. The clock reading is a parameter, and the loop runs over a finite event trace. Go picks at random when a tick and the cancellation are ready at the same time. The model assumes the cancellation wins once `Stop` has run.
- The 5-second ticker period and the `logger` calls are left out, as is any timing between ticks.
- `os.Getenv` and `time.ParseDuration` are foreign. Their combined result is an `Option` of nanoseconds.
- GoTime.WholeSeconds: the conversion through `float64` is modelled as exact truncation toward zero. `d.Seconds()` is `sec + nsec/1e9` in float64. Once |sec| ≥ 2^24 seconds (about 194 days), a sub-second part close to a whole second can round the sum up to the next integer, and Go's result is then one second larger in magnitude.
- int64 wrap-around of the Unix seconds, of `now − seconds` and of durations is not modelled, because the integers are unbounded. Real clock readings are far from the limits.
- The in-memory map holds pointers in the source. A caller that keeps a pointer sees the sweep's change, and can change a stored auction without going through the store. The model stores auction values, so this aliasing is not captured.
- The unguarded concurrent access to the in-memory map is left out: the model is single-threaded.
- The durable store's `FindAuctionById` and the reverse record-to-entity conversion live in files that are not part of this model. `FromRecord` is the evident inverse of `ToRecord`, used to state the round trip.
- `internal_error` and `auction_entity` are not part of this model. The error keeps only its message. Statuses and conditions are enumerations without their numeric codes.
