# Seat booking, verified

A Dafny model of the seat-booking core of cinebook, with proofs of what it promises: no seat is sold
twice, one idempotency key makes one booking, nothing deadlocks, and exactly when a booking covers what
was held, when the sweeper makes no difference, and when the rate limiter may forget a client without
anyone noticing. It models the four transactions over holds, seat rows and bookings (Hold, Confirm, Release,
Sweep) at three levels, and the token-bucket limiter.

* **Tables and bodies.** `Schema` has the tables as finite maps; nothing is ever deleted, so what a
  statement or a transaction wrote is again a set of tables. `Statements` has each SQL statement as what it
  reads or writes, `Bodies` each transaction body run alone, `Invariants` what every committed state
  satisfies.
* **Interleavings.** `Protocol` is a transition system of transactions in flight: arrive (with the read
  that picks the lock), begin (which fixes the timestamp, to any value), take the showtime's lock, run one
  statement against the committed tables plus one's own writes, commit, or be lost at any point. An insert
  or update that meets another transaction's uncommitted row or unique key waits for it. `Locality`, `Paths` and `Moving`
  carry a transaction's explanation along while others commit; `Refinement` proves the main theorem;
  `Guarantees`, `SeatMaps`, `Wholeness`, `Progress`, `Sweeper`, `SweepEffects` and `SweepFree` draw the
  consequences, and `LateClocks` has schedules that show where a clock assumption is needed. `Solo` runs
  one transaction to its end, from which `SweepFree` gets the converse of the main theorem.
* **Answers.** `Outcomes` says of the fields of the rows alone what each operation answers and what it
  leaves behind, for every good state and so for every call of every run; `Readings` says the same of the
  seat map and of a hold's status, and what they show right after a Release and a Confirm.
* **Code.** `Store` is the database as a class whose methods update the tables row by row and return row
  counts; `Service` is the service on top of it, statement by statement, with rollback; `Selections` has
  the loops around the transactions and `Sweeps` the sweeper's own loop. Each method is tied to the
  function that the theorems are about.
* **Limiter.** `Buckets` has the token buckets as values over real numbers, `Limiter` the class that
  updates its map in place.

No theorem assumes anything about the clock unless it says so. Where one does, the assumption is that
timestamps do not decrease in the order in which one showtime's lock is taken (or, for the limiter, that
`now` does not decrease), and a lemma shows a run or a condition in which it matters.

Check it with `dafny verify dfyconfig.toml` (Dafny 4.11).

Where the code and its comments differ, the model follows the code:

* `internal/httpapi/ratelimit.go:64-66` takes it that nobody can tell a dropped bucket that was full from
  one that was kept. A call that waited for the mutex can carry an earlier time than the sweep did, and
  then its caller can tell. `Buckets.EvictionCanBeNoticed` is such a run from the empty limiter,
  `Buckets.DropIsUnnoticedIff` the exact condition for one bucket, and
  `Buckets.EvictionIsInvisibleUnlessOvertaken` a condition for whole runs.
* `internal/booking/sweep.go:12` takes it that nothing hangs on the sweeper having run. That is so when
  timestamps follow the lock (`Sweeper.SweeperIsNotLoadBearing`). When they do not, a sweep can change
  what a hold or a confirm is told: `LateClocks.SweepCanRefuseALateConfirm` has the schedules, and
  `SweepEffects` and `SweepFree.SweepsCanBeDroppedIff` say exactly when, for one call, for lists of
  calls and for schedules.
* `internal/booking/sweep.go:22-29` counts rows before the transaction commits, so rows of a commit that
  is undone are counted too: `Sweeps.CountIsOverBy` and `Sweeps.CountIsExactIff`.

## Model

| member | source | states |
|---|---|---|
| Refinement.EveryRunIsSerial | internal/store/tx.go:17-45 | For every schedule of in-flight transactions, with any timestamps and aborts anywhere: the committed states are those of the bodies run one at a time in commit order, each with the result it gave; every failure is what its body answers in some state committed between its arrival and its failure. |
| SweepFree.SerialRunsAreReachable | internal/store/tx.go:17-45 | The converse: every sequence of operations that get done when run one at a time, at any timestamps, is exactly what some schedule commits. |
| Outcomes.EveryCallOfEveryRun | internal/booking/hold.go:14-165 | For every schedule: each commit answers and writes what its operation promises on the state committed before it, and each failure answers what it promises on a state committed during its lifetime. The promises are those of the four laws below, in terms of the fields of the rows. |
| Outcomes.ConfirmIsDoneIff | internal/booking/confirm.go:54-157 | In a good state a Confirm of a hold neither confirmed nor released succeeds if and only if the hold has an unreleased row, its expiry is after now, no booking has its customer and the key, and one of the drawn references is not in use. |
| Outcomes.ConfirmLaw | internal/booking/confirm.go:16-105 | What Confirm answers in every good state: not found, expired, key reused or no free reference, each on its exact condition with the tables unchanged; for a confirmed hold the stored booking and its seats, each once and in seat order; otherwise one new booking under the first free reference, with the hold, its customer, the key, now, the currency and the price of exactly its unreleased seats; the hold and exactly those rows are confirmed at now, and nothing else changes. |
| Outcomes.ReleaseLaw | internal/booking/hold.go:151-164 | In a good state Release succeeds if and only if the hold is stored and not confirmed, and reports a confirmed hold as such; then the hold carries now as its release unless it had one, each of its unreleased rows is released at now, and every other row stays as it was. |
| Outcomes.HoldLaw | internal/booking/hold.go:28-98 | What Hold answers in every good state: not found, sales closed, a seat of another auditorium, exactly the requested seats that are sold or held and not expired, ascending, or a used token; otherwise a hold of the customer and one row for each seat, expiring together the lifetime after now, read back in seat order at the price of the seats; stale rows of those seats are released, and nothing else changes. |
| Outcomes.SweepLaw | internal/booking/sweep.go:22-29 | The sweep of one showtime releases exactly its unsettled rows that have expired, and returns their number. |
| Outcomes.FirstFreeReference | internal/booking/confirm.go:125-157 | When neither hold nor key is booked, the insert ends under the first drawn reference that is not in use, fails if and only if all are, and never blames the key. |
| Outcomes.HeldSeatsAre | internal/store/gen/holds.sql.go:171-210 | Reading a hold's seats gives the seats of exactly its unreleased rows, each once, in the order of the catalog. |
| Readings.MapLaw | internal/store/gen/seatmap.sql.go:32-44 | In a good state the seat map has one row for each seat of the showtime's auditorium and no other, in seat order: sold if and only if a row of it is confirmed and not released, held if and only if one is unsettled and expires after now, free if and only if neither. |
| Readings.OpenHoldReads | internal/booking/hold.go:167-177 | In a good state a hold neither confirmed nor released reads live exactly until it expires, and each seat it still has reads held on the map exactly as long and free after. |
| Readings.ReleaseFrees | internal/booking/hold.go:142-165 | After a successful Release the hold reads released and has no seat, and every seat it had reads free on the map, at every time. |
| Readings.ReleasedSeatsCanBeHeld | internal/booking/hold.go:159-164 | Seats that a released hold had can be held at once: a Hold of any of them for the same showtime, under a new token and while sales are open, succeeds, whatever its customer and time. |
| Readings.ConfirmSells | internal/booking/confirm.go:16-105 | After a successful Confirm, a replay included, the hold reads confirmed and the seats of the booking, of which there is at least one, read sold on the map, at every time. |
| Guarantees.RowsChangeOnlyUnderTheirLock | internal/store/tx.go:15-24 | The committed rows of a showtime differ after a step only if the step is the commit of the transaction holding that showtime's lock. |
| Refinement.StepKeepsGood | internal/store/tx.go:17-45 | Every protocol step keeps: committed states good and explained serially, failures explained, each transaction on the path of its body, one holder per lock, no two transactions with clashing uncommitted bookings. |
| Paths.StatementStaysOnPath | internal/booking/confirm.go:30-100 | One statement of any body, run against the state the transaction is explained by, either goes on along that body's path or fails with the error the whole body gives there. |
| Moving.StatementMoves | internal/booking/hold.go:28-98 | A statement under the showtime's lock does the same in a later state as long as nobody else changed that showtime's rows, whatever happened to others, key reads apart. |
| Moving.BodyMoves | internal/booking/confirm.go:125-157 | A whole body gives the same outcome and writes in a later state with the same rows for its showtime, when the rows of other showtimes and bookings only evolved and leave its booking free. |
| Invariants.BodyKeepsInv | internal/store/migrations/00001_initial_schema.sql:42-94 | Every body keeps, for any timestamp: rows agree with their hold's showtime and expiry, terminal states are exclusive and final, at most one unreleased row per seat and showtime, bookings unique by ref, hold and key, priced by their seats, and one for every confirmed hold; nothing is deleted, and no row joins an existing hold. |
| Guarantees.Evolution | internal/store/migrations/00001_initial_schema.sql:42-94 | In every run every committed state satisfies that invariant and every later one evolves from it. |
| Invariants.IndexNeverRefuses | internal/booking/hold.go:49-81 | After the reclaim and a conflict check that found nothing, at one and the same time, the partial unique index accepts every claimed row, whatever the tables were. |
| Guarantees.ClaimNeverFails | internal/booking/hold.go:75-81 | In every reachable state a claim about to run inserts every row, for arbitrary, even decreasing, timestamps. |
| Guarantees.IndexNeverFires | internal/store/errors.go:15-17 | No run records a lost seat race. |
| Invariants.ConfirmAllOrNone | internal/booking/confirm.go:73-87 | On a hold neither confirmed nor released, confirming the seat rows matches every row the seat count counted if the hold can still be confirmed, and none otherwise. |
| Guarantees.ConfirmMatchesNoneOrAll | internal/booking/confirm.go:73-81 | In every reachable state, when a transaction is about to confirm its seat rows, the row count is zero or the number of seats counted before. |
| Guarantees.ConfirmedSeatsConfirmTheHold | internal/booking/confirm.go:82-87 | In every reachable state, once the seat rows have matched, confirming the hold updates exactly one row. |
| Wholeness.BookingIsWholeIff | internal/booking/confirm.go:65-87 | In every run the first Confirm of a hold books every seat that was claimed for it if and only if no hold or sweep of the showtime committed in between reclaimed one of them with a timestamp at or past the hold's expiry. |
| Wholeness.SeatIsBookedIff | internal/booking/confirm.go:65-81 | One seat is in the booking exactly if the hold claimed it and no commit in between reclaimed it, so a booking is always a subset of its hold. |
| Wholeness.ReleasedIffReclaimed | internal/store/gen/holds.sql.go:221-229 | While a hold stays open, a row of it is released exactly when some commit in between reclaimed it. |
| Wholeness.ConfirmIsAllOrNothing | internal/booking/confirm.go:65-87 | When no earlier hold or sweep of the showtime carries a later timestamp than the confirm, the booking covers exactly the seats the hold claimed. |
| LateClocks.SomeRunBooksAPart | internal/booking/confirm.go:65-87 | A schedule, reached from the empty database, in which a confirm that began early and locked late books one of the two seats of its hold. |
| LateClocks.SweepCanRefuseALateConfirm | internal/booking/sweep.go:11-13 | Two schedules from the empty database: in one a sweep overtakes a confirm with an older timestamp, which fails as expired; in the other there is no sweep, and the same confirm books both seats. |
| SweepEffects.SweepBeforeConfirmIff | internal/booking/confirm.go:54-87 | For any good state and any timestamps, a sweep of a showtime at t changes what a Confirm at `now` is told if and only if its hold is of that showtime, open, still has seats, expires after `now` but not after t, and its key is not another hold's. |
| SweepEffects.SweepBeforeHoldIff | internal/booking/hold.go:29-63 | The same for a Hold: if and only if it is of that showtime, reaches the conflict check, and a requested seat has an unsettled row that expires after `now` but not after t. |
| SweepEffects.SweepBeforeReleaseNever | internal/booking/hold.go:151-164 | A sweep never changes what a Release is told. |
| SweepEffects.AnswersAgreeIff | internal/booking/sweep.go:11-13 | On tables that have had sweeps and tables that have not, one call is answered alike if and only if it depends on no row that only a sweep has released and that has not expired by its timestamp; and then the tables go on in that relation. |
| SweepEffects.SweepsMatterIff | internal/booking/sweep.go:11-13 | Over every list of calls run one at a time, at any timestamps: dropping the sweeps leaves all answers as they were if and only if no call in it is of that kind. |
| Guarantees.SoldStaysSold | internal/store/gen/holds.sql.go:50-57 | A seat row once confirmed is the same row in every later committed state, unreleased, and the only unreleased row for its seat and showtime. |
| Guarantees.BookingsAreDisjoint | internal/store/migrations/00001_initial_schema.sql:74-77 | In every committed state two bookings of one showtime have disjoint, nonempty seat sets. |
| Guarantees.ConfirmedMeansBooked | internal/booking/confirm.go:41-52 | In every committed state a hold is confirmed if and only if a booking names it, only one does, and every unreleased row of a confirmed hold was confirmed with it. |
| Guarantees.CommitIsReadBack | internal/booking/confirm.go:107-122 | What a Confirm returned is what a booking lookup by that reference gives in every later state, even when its two reads see different states. |
| Guarantees.ReplaysAgree | internal/booking/confirm.go:41-52 | Two successful Confirms of one hold, under any keys and any time apart, return the same reference, seats, total, currency and creation time. |
| Guarantees.OneKeyOneBooking | internal/booking/confirm.go:54-63 | Two successful Confirms of different holds, racing on any showtimes, never end in bookings of the same customer under the same key. |
| Guarantees.KeyServesOneHold | internal/booking/confirm.go:54-60 | A Confirm that commits although its customer's key belongs to another hold replayed a hold that was already confirmed, and changed nothing. |
| Guarantees.KeyLoserIsTold | internal/booking/confirm.go:54-63 | The failed Confirm of an open hold is told that its key is used if and only if the key belonged to another hold in the state that explains the failure, and always when it did on arrival. |
| Paths.InsertReaches | internal/booking/confirm.go:124-157 | With the key free, the retry loop gets past every suppressed reference and continues as if it started at the next one. |
| Progress.NeverDeadlocked | internal/booking/confirm.go:125-157 | In every reachable state with anything in flight some transaction can take its next step without an abort. |
| Progress.WaitingIsShallow | internal/booking/confirm.go:125-146 | Every transaction in flight can step, or waits for one that can, or waits for one that waits for one that can. |
| Progress.StatementWaitsOnlyForCommits | internal/store/gen/bookings.sql.go:12-17 | Under its lock a transaction only ever waits at the booking insert, and only for a transaction that has nothing left to do but commit. |
| Progress.EverythingCanFinish | internal/store/tx.go:28-45 | From every reachable state all transactions in flight can be brought to their end without one abort. |
| Solo.RunsToItsEnd | internal/store/tx.go:28-45 | A transaction that is alone past its lock ends exactly as its body, run alone, does: its writes and result committed, or its error recorded and nothing written. |
| Sweeper.SweeperIsNotLoadBearing | internal/booking/sweep.go:11-40 | Two lists of calls, each run one at a time, that differ only in their sweeps, with timestamps in lock order, answer every Hold, Confirm and Release alike, failures included, and end with the same bookings, the same hold status at every time, and the same seat map at every time not before the showtime's clock. |
| Sweeper.SweepsChangeNothing | internal/booking/sweep.go:11-40 | The simulation behind it: tables that agree but for whether and when lapsed rows were released stay so over any run with its sweeps dropped. |
| Sweeper.CallAlike | internal/booking/confirm.go:30-100 | On such tables every Hold, Confirm and Release answers alike and leaves such tables. |
| SweepFree.SweepsCanBeDroppedIff | internal/booking/sweep.go:11-40 | For every schedule, at any timestamps: some schedule without a sweep commits the same other operations with the same results if and only if none of them noticed a sweep. |
| SweepFree.FailureCarriesOverIff | internal/booking/sweep.go:11-40 | A recorded failure of the schedule is answered alike in the matching state of the sweep-free one if and only if it did not notice a sweep. |
| SweepFree.SweepsCanBeDropped | internal/booking/sweep.go:11-40 | For every schedule whose commits follow its locks there is one without a sweep that commits the same other operations with the same results, answers alike every failure whose timestamp is not before its showtime's clock, and leaves the same holds, bookings and seat maps. |
| SeatMaps.OneRowPerSeat | internal/store/gen/seatmap.sql.go:32-44 | In every committed state, at every time, the seat map query yields exactly one row for each seat of the auditorium, in order, with the seat's status, although it is a join. |
| SeatMaps.HoldAgreesWithMap | internal/booking/hold.go:55-63 | A hold that reaches the conflict check succeeds exactly if every requested seat reads free; otherwise the error lists exactly the seats that do not, in ascending order. |
| SeatMaps.ConflictsAreBlocked | internal/store/gen/holds.sql.go:102-108 | The conflicts found after the reclaim are the seats that the map showed as not free before it. |
| SeatMaps.HoldShowsOnTheMap | internal/booking/hold.go:65-70 | Right after a hold its seats read held if the lifetime is at least one whole second, and free again at once if truncation made it zero. |
| SeatMaps.SeatsAreConserved | internal/store/gen/seatmap.sql.go:32-44 | In every committed state and at every time, free, held and sold add up to the auditorium's seats. |
| SeatMaps.MoneyIsConserved | internal/booking/confirm.go:89-94 | In every committed state the totals of a showtime's bookings add up to its price times the seats its map shows as sold. |
| Invariants.SeatsBelong | internal/booking/hold.go:37-45 | For distinct ids, a count equal to their number means that every one of them belongs to the showtime's auditorium. |
| Store.Db.UpdateRows | internal/store/gen/holds.sql.go:221-229 | An UPDATE by loop changes exactly the rows that match, each as given, and returns how many. |
| Store.Db.ReclaimExpiredSeats | internal/store/gen/holds.sql.go:221-242 | Releases exactly the wanted, lapsed rows of the showtime and returns their number. |
| Store.Db.ConfirmHoldSeats | internal/store/gen/holds.sql.go:50-65 | Confirms exactly the hold's unsettled, unexpired rows and returns their number. |
| Store.Db.ReleaseHoldSeats | internal/store/gen/holds.sql.go:260-274 | Releases at now exactly the hold's rows that are neither confirmed nor released, leaves every other row, and returns their number. |
| Store.Db.ReclaimExpiredSeatsForShowtime | internal/store/gen/sweeper.sql.go:42-57 | Releases exactly the showtime's lapsed rows and returns their number. |
| Store.Db.FindSeatConflicts | internal/store/gen/holds.sql.go:102-133 | Returns the wanted seats with a live row, ascending. |
| Store.Db.ClaimSeats | internal/store/gen/holds.sql.go:13-31 | Inserts one row per seat, or is refused exactly when one of the rows would be a second unreleased one for its seat. |
| Store.NextRowFits | internal/store/migrations/00001_initial_schema.sql:74-77 | Checking the index row by row as they go in refuses exactly when the whole set of rows violates it. |
| Store.Db.GetHoldSeats | internal/store/gen/holds.sql.go:171-210 | Returns the hold's unreleased seats in seat order. |
| Store.Db.ConfirmHold | internal/store/gen/holds.sql.go:33-48 | Confirms the hold if it can be confirmed, and returns one or zero accordingly. |
| Store.Db.ReleaseHold | internal/store/gen/holds.sql.go:244-258 | Releases the hold at now and returns one if it is stored and neither confirmed nor released; otherwise changes nothing and returns zero. |
| Store.Db.CreateBooking | internal/store/gen/bookings.sql.go:12-16 | Inserts the booking exactly if no booking has its ref, none has its hold, and none has both its customer and its key; otherwise changes nothing. |
| Store.Db.GetBookingByIdempotencyKey | internal/store/gen/bookings.sql.go:77-104 | Finds a booking of the customer under the key exactly if there is one. |
| Store.Db.CountSeatsInShowtime | internal/store/gen/seatmap.sql.go:12-30 | Counts the listed seats that belong to the showtime's auditorium. |
| Store.Db.GetSeatMap | internal/store/gen/seatmap.sql.go:32-44 | Reading each seat's live row gives the rows of the join, given the unique index. |
| Store.Db.ListShowtimesWithExpiredSeats | internal/store/gen/sweeper.sql.go:12-40 | Returns in ascending order the lowest ids of showtimes with an unsettled row that has expired, at most the limit and fewer only if those are all. |
| Service.HoldTx | internal/booking/hold.go:28-98 | Run statement by statement on the mutable tables, Hold answers as its body and, when it succeeds, leaves what its body writes. |
| Service.ClaimTx | internal/booking/hold.go:65-97 | The part after the conflict check: creating the hold, claiming the seats and reading them back completes the body begun before it. |
| Service.ConfirmTx | internal/booking/confirm.go:30-100 | The same for Confirm, with the replay, the key check, the counts and the insert. |
| Service.BookTx | internal/booking/confirm.go:65-99 | The part after the key check: counting, confirming and inserting completes the body begun before it. |
| Service.ReleaseTx | internal/booking/hold.go:151-164 | The same for Release. |
| Service.InsertBookingRow | internal/booking/confirm.go:124-157 | The retry loop inserts under the first free reference, stops when the key is taken, gives up after the last, and changes no booking unless it inserts. |
| Service.Service.constructor | internal/booking/booking.go:10-28 | A lifetime or a seat limit that is not positive becomes 420 seconds or 10 seats. |
| Service.Service.Hold | internal/booking/hold.go:14-103 | Refuses a blank customer or a bad selection without a trace; otherwise answers and stores what `Outcomes.HoldLaw` promises, for the token, showtime and customer given, with a lifetime of the whole seconds in the configured one; and exactly as its body on the sorted selection does. The invariant is kept. |
| Service.Service.Confirm | internal/booking/confirm.go:16-105 | Refuses an empty key without a trace; otherwise answers and stores what `Outcomes.ConfirmLaw` promises, the read before the lock included, and exactly as its body does. |
| Service.Service.Release | internal/booking/hold.go:142-165 | Answers and frees what `Outcomes.ReleaseLaw` promises, the read before the lock included, and exactly as its body does. |
| Service.Service.GetHold | internal/booking/hold.go:107-139 | For a stored token: released, confirmed, live or expired, each if and only if the release, the confirmation and the expiry against now say so; its unreleased seats, each once and in order, listed as sold if and only if it reads confirmed, their price, the expiry and the currency. Nothing for an unknown token. |
| Guarantees.HoldSeenAcrossStates | internal/booking/hold.go:105-122 | When GetHold's reads see different committed states: the seats read later are among those the hold had when it was read, all of them if it was confirmed, none if it was released. |
| Service.HoldReadsAsItsBooking | internal/booking/hold.go:124-138 | A hold that was booked reads as confirmed at every time, at the total its booking froze. |
| Service.Service.GetBooking | internal/booking/confirm.go:107-122 | Returns the reference, showtime, total, currency and creation time of the stored booking with its hold's unreleased seats, exactly if the reference is stored. |
| Service.Service.SeatMap | internal/booking/seatmap.go:12-28 | Returns the showtime's price and currency and rows that are the seat map query's, grouped, and of which `Readings.MapLaw` holds; nothing for an unknown showtime. |
| Service.Service.Sweep | internal/booking/sweep.go:14-40 | The loop over the listed showtimes, each transaction at its own timestamp, passing over busy ones and stopping at any other error, changes, counts and reports what `Sweeps.RunLaw` promises, and touches only seat rows. |
| Sweeps.RunLaw | internal/booking/sweep.go:20-40 | A run fails if and only if the transaction of some listed showtime reports an error other than that it is busy; it counts the expired unsettled rows of every showtime it updated before it stopped, releases exactly those whose commit took effect, each at its transaction's time, and changes nothing else. |
| Sweeps.CountIsOverBy | internal/booking/sweep.go:20-38 | A run releases exactly the lapsed rows of the showtimes whose commits took effect, and its count is over by exactly the rows of the commits that were undone. |
| Sweeps.CountIsExactIff | internal/booking/sweep.go:20-38 | If no transaction of the run began before the listing, the count is exact if and only if no commit it ran into was undone; a commit that took effect and reported an error does not make it wrong. |
| Sweeps.SweepClearsTheLowest | internal/store/gen/sweeper.sql.go:12-20 | With no contention and no failed commit a run clears the lowest ids up to the limit, leaves every other showtime, and returns the rows it released. |
| Sweeps.SweepDrains | internal/booking/sweep.go:14-40 | After any number of runs at one timestamp the showtimes left are those the limits have not covered. |
| Sweeps.DrainedInCeiling | internal/booking/sweep.go:14-40 | With m showtimes and a positive limit, m / limit runs, rounded up, leave no lapsed row, and the next run returns 0. |
| Selections.NormalizeSeats | internal/booking/hold.go:198-220 | Accepts exactly the nonempty selections of at most the maximum whose ids are all positive and pairwise distinct, and returns them in strictly ascending order as a permutation; otherwise names the first offending id. |
| Selections.ProjectSeatRows | internal/booking/seatmap.go:30-43 | Cuts the rows into nonempty runs of one label whose neighbours differ, losing and reordering nothing. |
| Selections.GroupingIsUnique | internal/booking/seatmap.go:30-43 | That description fits one grouping only. |
| Selections.EachLabelOnce | internal/booking/seatmap.go:30-30 | On rows in which equal labels stand together, as ordering leaves them, each label gets exactly one row. |
| Buckets.EvictionIsInvisible | internal/httpapi/ratelimit.go:36-77 | For every sequence of calls whose times do not decrease, the limiter gives the answers and waits of one that never drops a bucket. |
| Buckets.EvictionIsInvisibleUnlessOvertaken | internal/httpapi/ratelimit.go:36-77 | The same for times in any order, as long as no call comes before the sweep that dropped its own key's bucket. |
| Buckets.EvictionCanBeNoticed | internal/httpapi/ratelimit.go:36-77 | A run from the empty limiter, of 1024 keys, a sweep and a trailing call, whose answers differ from those without eviction: a refused key is granted before the time it was told. |
| Buckets.DropIsUnnoticedIff | internal/httpapi/ratelimit.go:64-66 | Dropping a bucket changes no answer, whatever follows, if and only if the next call for its key comes no earlier than the bucket's last use and finds it full. |
| Buckets.RateIsBounded | internal/httpapi/ratelimit.go:36-62 | From a key's first call on, while its bucket is not dropped, grants are at most `burst + rate × (largest time − first time)`, for times in any order. |
| Buckets.BurstIsGranted | internal/httpapi/ratelimit.go:43-61 | For a key without a bucket, of its calls at one time exactly the first `burst` are granted and each later one is told to wait `1 / rate`, whatever other keys do in between, as long as its bucket is not dropped. |
| Buckets.BurstAtOnce | internal/httpapi/ratelimit.go:36-57 | In a row: `burst` calls at one time for a key without a bucket are granted, and the next is told to wait `1 / rate`. |
| Buckets.AllowLaw | internal/httpapi/ratelimit.go:36-77 | What a call answers and stores, in terms of tokens and times: a new key spends from a full bucket; a known one is granted exactly if its tokens, filled up at the rate for the time that passed and cut at the burst, reach one, and is told otherwise how long the rest takes; time never runs backwards in a bucket; other buckets stay, but for the full ones that a sweep at the threshold drops for a new key. |
| Buckets.RateAcrossEvictions | internal/httpapi/ratelimit.go:36-77 | With times that do not decrease the bound holds across evictions. |
| Buckets.TokensInRange | internal/httpapi/ratelimit.go:46-62 | Tokens stay between zero and the burst over any sequence of calls. |
| Buckets.RefusalTellsWhen | internal/httpapi/ratelimit.go:52-56 | A refusal's wait is positive and leads from the bucket's clock to the time at which it has one token. |
| Buckets.WaitsAreExact | internal/httpapi/ratelimit.go:45-56 | After a refusal, while the key's bucket is not dropped, every call for the key before that time is refused and a call at that time is granted, whatever other keys do and at whatever times. |
| Buckets.RefusedIsDroppedIff | internal/httpapi/ratelimit.go:64-77 | A refused key's bucket is dropped if and only if a call for a new key finds the map at its threshold, no earlier than the rest of the burst takes to fill after the key was due. |
| Buckets.SweepsAreAmortized | internal/httpapi/ratelimit.go:64-77 | Over any sequence of calls all sweeps together visit at most two buckets per inserted key, and the map never outgrows its threshold. |
| Limiter.Limiter.Allow | internal/httpapi/ratelimit.go:36-57 | Updating the map in place answers and stores what `Buckets.AllowLaw` promises, as the value model does, within the cost bound, tokens in range. |
| Limiter.Limiter.Sweep | internal/httpapi/ratelimit.go:67-77 | The deleting loop drops exactly the buckets that are full once the threshold is reached, sets it to the larger of 1024 and twice what is left, and visits each bucket once. |
| Limiter.Serve | internal/httpapi/ratelimit.go:36-57 | Any list of calls served one after the other gets the replies of the value model's run. |

## Left out

- HTTP routing, JSON, problem details, middleware, metrics, health, logging, configuration parsing and the browser UI: plumbing around the core.
- Postgres itself: only locks, snapshots, transaction timestamps and unique constraints are modelled, as the statements rely on them. Lock and statement timeouts appear as transactions lost at any point.
- Blank customer references and keys made of spaces: a CHECK constraint refuses them; the model refuses only the empty string, as the service does.
- The formats of hold tokens and booking references, and their generation: a token is drawn fresh, and the five references a confirm may try are part of the operation.
- A seat's row, number and kind beside its id in a hold or a booking, and its status there but in `Service.Service.GetHold`: the first three are the catalog's, and the status is always held after a Hold and sold in a booking.
- Row ids: a hold is identified by its token, a booking by its reference and a seat row by its hold and seat.
- The catalog is constant: showtimes, prices, sales flags and seats do not change while seats are sold. Movies, auditoriums, overlap constraints and seed data are not part of the model.
- Overflow of `price × seats`: integers are unbounded.
- Floating-point rounding and truncation to nanoseconds in the limiter: time and tokens are real numbers.
- Truncation of very long hold lifetimes to 32 bits: only the truncation to whole seconds is modelled.
- The limiter's mutex and the defaults for its rate and burst: calls come one at a time, with a positive rate and a burst of at least one.
- Service.Service.GetHold: its reads are of one moment; what they may show across states is `Guarantees.HoldSeenAcrossStates`.
- Service.Service.GetBooking: its reads are of one moment; that the result is the same across states is `Guarantees.CommitIsReadBack`.
- Service.Service.Sweep: nothing else runs between its transactions; the interleaved case is that of the sweeps in a schedule, for which its count is not modelled.
- A commit that reports an error although it took effect is modelled for the sweeper's count only; elsewhere such a caller is told nothing, as after a lost connection.
- GetHold's seat list and total for expired holds: the sweeper does change them, so no theorem says otherwise.
- Aborted transactions leave no event: what their callers are told is not modelled.
- Protocol fairness: `Progress.EverythingCanFinish` says that everything can finish, not that a scheduler will let it.
