# UniVM-Core: verified models

A Dafny project beside the UniVM-Core research artifact. It models the parts of the repository that
are sequential state machines or byte and arithmetic code, and proves what they keep:

- the constant-product pool, the token and the auction of the differential-testing models
  (`scripts/rq2/rq2-models.ts`), and the hotel model (`scripts/rq2/hotel-booking-model.ts`);
- the Fabric participant: the `HotelBooking`, `XBridgeBc3` and `AuctionLogic` chaincodes, with uint64
  arithmetic over a string-keyed ledger (`contracts/xsmart/bc3`);
- the VASSP encoder: RLP as in Appendix B of the Ethereum Yellow Paper around values laid out as in
  the "Formal Specification of the Encoding" of the Solidity Contract ABI Specification;
- the differential-testing oracle: canonical snapshots, the touched-name sets, the seeded generator;
- the two benchmark engines: the in-flight pipeline and the time-window gas scan.

`dafny verify dfyconfig.toml` checks everything.

## How it is built

| files | content |
|---|---|
| `Prelude`, `Arith`, `MapSum`, `BigEndian`, `Utf8` | shared types and facts |
| `DexSwap`, `DexProperties` | the pool, and its guarantees over runs |
| `FabricLedger`, `HotelBooking`, `XBridge`, `Participant` | ledger and transaction context, the two chaincodes, the participant as one state machine and the life of a lock |
| `CallTable` | every call of the participant in one flat table of guards, errors and cells, to which the specifications amount |
| `ParticipantSafety`, `ParticipantRuns`, `UserBooks` | invariants, conservation and commits over runs, under either ledger reading |
| `DisciplineNeeded`, `TotalLock`, `Readings`, `ReachableFailures` | what goes wrong without the discipline and exactly when; which calls tell the two ledger readings apart; runs that end in each failure |
| `HotelModel`, `HotelRefinement`, `AuctionModel`, `AuctionLogic`, `TokenModel` | the unbounded models and the uint64 refinements |
| `Vassp`, `VasspDecoder`, `Export` | encoder, strict decoder, the exported text |
| `CanonicalSnapshot`, `SnapshotOracle`, `SnapshotContents`, `Lcg` | the oracle |
| `Layouts` | the formats byte by byte: RLP, ABI, hex, UTF-8, snapshots |
| `Throughput`, `GasScan` | the benchmark engines |

Objects that update their fields are classes whose methods are proved to do what a step function on
the abstract state says; the results about runs are lemmas about those functions. A chaincode
operation has a specification that says, from the ledger a call reads and the draft it writes, which
ledger it leaves; the methods run it read by read and write by write on a transaction context.

Readings and findings that a user of the results should know:

- A call that returns an error leaves the ledger unchanged, since Fabric does not commit it.
- Whether a read sees the call's own writes is a parameter of every call, and the results about runs
  hold for runs that mix both readings. Fabric's `GetState` serves committed state only, while the
  chaincode is written as if it saw its own writes. `Readings.ReadingsDifferExactly` says which calls
  notice: the commits of ATOM and of GPACT, which release a lock and then book its rooms in one
  transaction, and locks of id `TOTAL`. Under committed-only reads a commit goes through exactly when
  as many rooms are free beside all locks, its own included, as it books (`Readings.CommitReadings`);
  the last room of a hotel can then be locked but never committed
  (`ReachableFailures.LastRoomNeedsOwnWrites`). That a commit always goes through
  (`ParticipantRuns.PreparedCanAlwaysCommit`) therefore asks own writes of the commit, and of it only.
- The key of the lock of id `TOTAL` is the key of the lock total
  (`contracts/xsmart/bc3/hotel_booking.go:20-21`), so a lock of that id overwrites its own entry: it
  commits, is never active and can be released by nobody, and only its amount is left in the total
  (`TotalLock`, with a run from a fresh hotel in `ReachableFailures.TotalLockIsLostReachably`). Results
  about locks exclude that id. Whether the two ledger readings of such a lock agree is another
  question, answered by `Readings.LockReadings`.
- A zero-room lock is never refused for lack of rooms and reserves the lock size
  (`contracts/xsmart/bc3/hotel_booking.go:197-204`). It is safe exactly when that many rooms are free;
  otherwise no prepared operation can be committed, by ATOM or by GPACT (`DisciplineNeeded`, with a run
  that gets there in `ReachableFailures`). When the value of the lock size or the lock total wraps
  around, `DisciplineNeeded.ZeroRoomLockDecidesCommits` still says exactly when commits go through.
- A plain lock of an id that has a left-over operation can be committed as that operation
  exactly when the operation's rooms, fewer or more than the locked ones, were free before the lock
  (`DisciplineNeeded.StaleOperationCommitsExactly`, `ReachableFailures.StaleCommitBooksReachably`).
- The auction chaincode keeps the ledger of the unbounded model along a run if and only if no amount
  paid back along it passes 64 bits (`AuctionLogic.RunsCorrespondExactly`).
- The time-out deadline is a uint64 sum and may wrap around; then a lock can be released in the block
  that took it (`Participant.WrappedDeadlineReleasesAtOnce`).
- For commits it is enough that plain locks never use an id driven by GPACT or ATOM; an id need not
  belong to only one of those two. A GPACT commit of an ATOM lock fails exactly when the lock was
  recorded without a first amount (`ParticipantRuns.PreparedCanAlwaysCommit`).
- The binary search for the first block returns the latest block when no block is late enough
  (`scripts/benchmark/rq3-gas.ts:705`). The scan is exact if and only if the window reaches the chain;
  otherwise it reads the one nearest block.

## Model

| member | source | states |
|---|---|---|
| DexSwap.DEXSwapModel.Execute | scripts/rq2/rq2-models.ts:267-322 | every operation takes the pool to the stepped pool, answers as the step does, and keeps the invariant |
| DexSwap.StepKeepsWellFormed | scripts/rq2/rq2-models.ts:270-311 | total shares are the sum of the holdings, and reserves and total vanish only together, after every operation |
| DexProperties.ReachablePoolsAreWellFormed | scripts/rq2/rq2-models.ts:262-311 | the same in every pool reachable from a new one, so no division by zero can occur, and no swap would pay out all of reserve B |
| DexProperties.DepositMovesExactly | scripts/rq2/rq2-models.ts:270-288 | errors and effects of a deposit: both amounts into the reserves, the minted shares to its user and nobody else |
| DexProperties.WithdrawalMovesExactly | scripts/rq2/rq2-models.ts:289-300 | errors and effects of a withdrawal: the shares from its user, out of the reserves what it answers |
| DexProperties.SwapMovesExactly | scripts/rq2/rq2-models.ts:301-311 | errors and effects of a swap; the output is the largest number within the price less the fee |
| DexProperties.ReadersAnswerExactly | scripts/rq2/rq2-models.ts:312-318 | the readers answer the reserves, the shares of the user and the total |
| DexProperties.DepositIsLargestFair | scripts/rq2/rq2-models.ts:270-288 | a later deposit mints the largest number of shares worth no more than either amount, and when it is refused |
| DexProperties.WithdrawalIsLargestFair | scripts/rq2/rq2-models.ts:289-300 | a withdrawal succeeds exactly for held shares and pays the largest amounts within the proportional part |
| DexProperties.SwapRefusedExactly | scripts/rq2/rq2-models.ts:301-311 | exactly which swaps are refused; the guard against draining reserve B never fires |
| DexProperties.LastExitEmptiesPool | scripts/rq2/rq2-models.ts:289-300 | redeeming all shares pays out and empties both reserves |
| DexProperties.LiquidityKeepsPerShare | scripts/rq2/rq2-models.ts:270-300 | deposits and withdrawals never lower either reserve per share |
| DexProperties.SwapRaisesProduct | scripts/rq2/rq2-models.ts:301-311 | a swap strictly raises the product of the reserves, fee and rounding included |
| DexProperties.RunNeverDilutes | scripts/rq2/rq2-models.ts:270-311 | over any run that does not empty the pool, reserveA * reserveB / totalShares^2 never decreases |
| DexProperties.EmptiedPoolMayRestartLower | scripts/rq2/rq2-models.ts:275-276 | the non-emptying condition is needed: a run from a new pool |
| DexProperties.RestartKeepsProductExactly | scripts/rq2/rq2-models.ts:275-276 | a pool that is emptied and restarted with a and b keeps its product per share exactly when A*B*(a+b)^2 <= a*b*T^2 |
| DexProperties.DepositThenWithdrawNeverGains | scripts/rq2/rq2-models.ts:270-300 | depositing and at once redeeming the minted shares succeeds and never returns more of either token |
| DexProperties.SplittingNeverPays | scripts/rq2/rq2-models.ts:301-311 | any sequence of swap attempts pays in total at most one swap of the accepted inputs' sum, which is accepted |
| TokenModel.TokenTransferModel.Execute | scripts/rq2/rq2-models.ts:112-152 | every operation takes balances, allowances and supply to the stepped state |
| TokenModel.SupplyIsConserved | scripts/rq2/rq2-models.ts:112-152 | over any run the supply is the sum of the balances, transfers to oneself included |
| TokenModel.TransferFromMovesExactly | scripts/rq2/rq2-models.ts:132-141 | when a delegated transfer is refused and why, and exactly what it moves and uses up |
| TokenModel.TransferMovesExactly | scripts/rq2/rq2-models.ts:122-128 | a transfer is refused exactly for want of balance; what every user then holds; supply and allowances stay |
| TokenModel.MintCreditsExactly | scripts/rq2/rq2-models.ts:115-121 | a mint credits the recipient only and raises the supply |
| TokenModel.RecordHolds | scripts/rq2/rq2-models.ts:104-110 | the initial record gives each name its amount and nobody else anything |
| TokenModel.ApproveSetsExactly | scripts/rq2/rq2-models.ts:129-131 | an approval sets exactly the cell of owner and spender |
| TokenModel.ReadersAnswerExactly | scripts/rq2/rq2-models.ts:142-147 | the readers answer balance, allowance and supply |
| TokenModel.AllowanceKeyIsInjective | scripts/rq2/rq2-models.ts:170-172 | with NUL-free owners an allowance key belongs to one owner and one spender |
| AuctionModel.AuctionLogicModel.Execute | scripts/rq2/rq2-models.ts:189-237 | every operation takes auctions and returns to the stepped state |
| AuctionModel.BidsAreConserved | scripts/rq2/rq2-models.ts:189-237 | over any run accepted bids = open highest bids + returns owed + withdrawals |
| AuctionModel.EveryUserIsSettled | scripts/rq2/rq2-models.ts:189-237 | over any run and for every user, accepted bids + sale proceeds = standing and winning bids + returns owed + withdrawals |
| AuctionModel.CreateOpensExactly | scripts/rq2/rq2-models.ts:192-198 | when an auction is refused, and the record it opens |
| AuctionModel.BidReplacesExactly | scripts/rq2/rq2-models.ts:199-211 | when a bid is refused and why; it replaces the highest bid, which is owed back to its bidder |
| AuctionModel.ClosePaysSellerExactly | scripts/rq2/rq2-models.ts:212-221 | when closing is refused; the record is closed and the bid owed to the seller |
| AuctionModel.WithdrawPaysExactly | scripts/rq2/rq2-models.ts:222-234 | a withdrawal pays what is owed and leaves nothing; the readers |
| AuctionLogic.PlaceBid | contracts/xsmart/bc3/auction_logic.go:46-68 | the bid, step by step, leaves the specified ledger under either reading |
| AuctionLogic.CloseAuction | contracts/xsmart/bc3/auction_logic.go:70-88 | closing, step by step, leaves the specified ledger under either reading |
| AuctionLogic.RunsAgree | contracts/xsmart/bc3/auction_logic.go:27-146 | while accepted bids total less than 2^64 the chaincode answers exactly as the unbounded model, errors included, and keeps the corresponding ledger |
| AuctionLogic.StepAgreesExactly | contracts/xsmart/bc3/auction_logic.go:27-146 | from corresponding states a step answers as the model does, and leads to corresponding states exactly when what it pays back fits in 64 bits |
| AuctionLogic.RunsCorrespondExactly | contracts/xsmart/bc3/auction_logic.go:143-146 | chaincode and model correspond after every operation of a run if and only if nothing paid back along it passes 64 bits |
| AuctionLogic.LargeBidsWrap | contracts/xsmart/bc3/auction_logic.go:143-146 | such a run of real bids: the chaincode then answers 1 where the model answers 2^64 + 1 |
| FabricLedger.KeysDistinct | contracts/xsmart/bc3/hotel_booking.go:16-25 | ledger keys of different kinds never coincide, except the lock of id "TOTAL" and the lock total |
| FabricLedger.Ctx.SubNum | contracts/xsmart/bc3/hotel_booking.go:355-361 | the clamped subtraction on a ledger number |
| HotelBooking.GetAvailableRemain | contracts/xsmart/bc3/hotel_booking.go:70-81 | the rooms neither booked nor covered by locked value, under either reading |
| HotelBooking.BookLocal | contracts/xsmart/bc3/hotel_booking.go:123-147 | the booking, step by step, meets its specification under either reading |
| HotelBooking.LockStateInternal | contracts/xsmart/bc3/hotel_booking.go:185-218 | the lock, step by step, meets its specification: entry, total, exported state |
| HotelBooking.UpdateState | contracts/xsmart/bc3/hotel_booking.go:220-243 | the update releases the lock, sets the rooms and records the booking, or aborts |
| HotelBooking.UnlockOnTimeout | contracts/xsmart/bc3/hotel_booking.go:255-264 | the time-out release meets its specification |
| HotelBooking.LockWrites | contracts/xsmart/bc3/hotel_booking.go:185-218 | an allowed lock commits exactly the entry and the raised total, under either reading |
| XBridge.GPACTSignalling | contracts/xsmart/bc3/xbridge_bc3.go:257-308 | commit releases, books and forgets; abort releases and forgets; errors abort |
| XBridge.AtomLockDo | contracts/xsmart/bc3/xbridge_bc3.go:319-367 | the ATOM lock reserves the first non-zero amount and records the operation |
| XBridge.AtomUnlock | contracts/xsmart/bc3/xbridge_bc3.go:369-408 | the ATOM commit, step by step, meets its specification under either reading |
| XBridge.ReceiveLockRequest | contracts/xsmart/bc3/xbridge_bc3.go:100-137 | the plain lock and the hex text of its response |
| XBridge.LockResponseTellsState | contracts/xsmart/bc3/xbridge_bc3.go:121-133 | the lock response determines the hotel record and the lock total exactly |
| Participant.InvokeHotel | contracts/xsmart/bc3/hotel_booking.go:42-276 | running any hotel operation in its own transaction commits the ledger the state machine says |
| Participant.InvokeBridge | contracts/xsmart/bc3/xbridge_bc3.go:37-438 | the same for any bridge operation |
| CallTable.EveryCallIsInTheTable | contracts/xsmart/bc3/xbridge_bc3.go:37-451 | in every ledger, for every caller and under either reading, each call of hotel and bridge is refused for the listed reason or commits the listed cells |
| CallTable.OnlyTheAuthorisedCall | contracts/xsmart/bc3/xbridge_bc3.go:440-452 | bridge calls go through only for the recorded relayer, calls that lock, release, update or commit only for the recorded bridge |
| CallTable.AuthorisedPassesBothChecks | contracts/xsmart/bc3/xbridge_bc3.go:440-452 | the caller that results about commits ask for is the recorded relayer and the recorded bridge at once |
| CallTable.LockReply | contracts/xsmart/bc3/xbridge_bc3.go:121-133 | the reply to a plain lock is "0x" and the hex of the exported record and total of the view the call reads |
| CallTable.BookTable | contracts/xsmart/bc3/hotel_booking.go:123-147 | the booking in plain cells, with its errors and the cost it answers |
| CallTable.RunsFollowTheTable | contracts/xsmart/bc3/hotel_booking.go:42-276 | a refused call leaves the ledger as it was, and a run makes its calls in order |
| Participant.LockLife | contracts/xsmart/bc3/hotel_booking.go:185-264 | one step takes, ends or spares the lock of an id, in any ledger and under either reading |
| Participant.OneOutcomePerLock | contracts/xsmart/bc3/xbridge_bc3.go:100-212 | along any run, committed locks minus committed releases is one while active and zero otherwise; the active entry is the last lock's |
| Participant.NoEarlyTimeout | contracts/xsmart/bc3/hotel_booking.go:255-264 | a time-out release comes strictly after lock time plus time-out, unless that sum wraps |
| Participant.WrappedDeadlineReleasesAtOnce | contracts/xsmart/bc3/hotel_booking.go:260-262 | in the lock's own block a time-out release goes through exactly when the deadline wraps |
| ParticipantSafety.AvailableExactly | contracts/xsmart/bc3/hotel_booking.go:70-81 | under the invariant a request is met exactly when its value fits beside the locked value |
| ParticipantSafety.ReleaseShape | contracts/xsmart/bc3/hotel_booking.go:295-304 | a release gives back exactly the locked amount; the clamp never acts |
| ParticipantSafety.RecordKeepsInv | contracts/xsmart/bc3/hotel_booking.go:135-147 | recording rooms that exist beside the locked value keeps the invariant and does not wrap |
| ParticipantRuns.RoomsAndChargesAreConserved | contracts/xsmart/bc3/hotel_booking.go:123-264 | over disciplined runs, under either reading: booked + remaining rooms constant, charges = price * booked, lock total = sum of locks <= price * remaining |
| ParticipantRuns.NoAmountWraps | contracts/xsmart/bc3/hotel_booking.go:344-361 | in reachable ledgers, under either reading, every booking, lock, release, commit and fair update computes as in unbounded arithmetic |
| ParticipantRuns.CommitGoesThrough | contracts/xsmart/bc3/xbridge_bc3.go:257-408 | under the invariants an authorised commit that sees its own writes books and charges exactly the locked rooms, lowers the lock total by their value and changes no other cell; when a GPACT commit fails |
| ParticipantRuns.PreparedCanAlwaysCommit | contracts/xsmart/bc3/xbridge_bc3.go:214-408 | the same in every ledger reachable by a disciplined run, whatever its steps could read |
| UserBooks.EveryUserPaysForTheirRooms | contracts/xsmart/bc3/hotel_booking.go:135-147 | in every reachable ledger, under either reading, each user's booking holds exactly the rooms that committed calls booked for that user, and with fair charges the account is their price |
| UserBooks.OthersAreSpared | contracts/xsmart/bc3/hotel_booking.go:135-147 | in any ledger, under either reading, no call changes the account or the bookings of anybody but the user it books for |
| DisciplineNeeded.ZeroRoomLockIsSafeExactly | contracts/xsmart/bc3/hotel_booking.go:197-204 | a zero-room lock keeps the invariant exactly when its 64-bit value is one of whole rooms and fits beside the locked value; without wrap-around, when the lock size was free |
| DisciplineNeeded.ZeroRoomLockDecidesCommits | contracts/xsmart/bc3/hotel_booking.go:70-81 | after it either commit of a prepared operation goes through exactly when the caller is authorised and the new lock total, in 64 bits, is worth no more rooms than are left |
| DisciplineNeeded.UncoveredZeroRoomLockBlocksCommits | contracts/xsmart/bc3/hotel_booking.go:197-204 | without wrap-around: if the lock size was free every commit still books its locked rooms, otherwise none goes through, ATOM or GPACT |
| DisciplineNeeded.StaleOperationCommitsExactly | contracts/xsmart/bc3/xbridge_bc3.go:379-395 | a plain lock of an id with a left-over operation is committed, by either protocol, exactly when the caller is authorised and the operation's rooms were free before the lock; it books those rooms, so it is the commit of the lock exactly when the numbers agree |
| DisciplineNeeded.StaleOperationBooksOldRooms | contracts/xsmart/bc3/xbridge_bc3.go:379-395 | in particular an operation for fewer rooms always commits, and books fewer than are locked |
| TotalLock.TotalLockIsLost | contracts/xsmart/bc3/hotel_booking.go:205-211 | in any ledger, under either reading, a committed lock of id "TOTAL" is not active and no call of anybody can release it; the total it leaves |
| TotalLock.TotalLockIsSafeExactly | contracts/xsmart/bc3/hotel_booking.go:205-211 | it keeps the invariant exactly when its amount is the old total (own writes) or zero (committed-only reads) |
| TotalLock.TotalLocksHaveNoOutcome | contracts/xsmart/bc3/hotel_booking.go:20-21 | along any run no lock of id "TOTAL" is ever active or released |
| ReachableFailures.LastRoomNeedsOwnWrites | contracts/xsmart/bc3/xbridge_bc3.go:265-283 | a run that locks the last room: both commits go through if reads see own writes, neither if they do not |
| ReachableFailures.ZeroRoomLockBlocksReachably | contracts/xsmart/bc3/hotel_booking.go:197-204 | a run after which a locked, prepared room can be committed by neither protocol |
| ReachableFailures.StaleCommitBooksReachably | contracts/xsmart/bc3/xbridge_bc3.go:379-395 | runs after which a commit books k rooms of a lock of n, for any k and n |
| ReachableFailures.SecondAmountNeedsAtom | contracts/xsmart/bc3/xbridge_bc3.go:278-278 | a run whose lock, recorded without a first amount, commits by ATOM and is refused by GPACT |
| ReachableFailures.LongestTimeoutEndsAtOnce | contracts/xsmart/bc3/hotel_booking.go:260-262 | a run whose lock, with the longest time-out, can be timed out in its own block |
| ReachableFailures.TotalLockIsLostReachably | contracts/xsmart/bc3/hotel_booking.go:205-211 | a run from a fresh hotel, with lock total zero, that loses a lock of id "TOTAL" |
| Readings.BothReadings | contracts/xsmart/bc3/hotel_booking.go:123-276 | every call but a commit and a lock of id "TOTAL" leaves the same ledger whether reads see own writes or committed state only |
| Readings.ReadingsDifferExactly | contracts/xsmart/bc3/xbridge_bc3.go:100-438 | of all calls, in every reachable ledger, exactly these tell the readings apart, given by their guards: allowed commits for more rooms than are free, and allowed locks of id "TOTAL" over a total that is not zero |
| Readings.BothAuctionReadings | contracts/xsmart/bc3/auction_logic.go:46-96 | auction operations do, too |
| Readings.LockReadings | contracts/xsmart/bc3/hotel_booking.go:205-211 | a lock reads the same either way exactly if its id is not "TOTAL" or the total was zero |
| Readings.CommitReadings | contracts/xsmart/bc3/xbridge_bc3.go:265-395 | in every reachable ledger, under committed-only reads, the ATOM or GPACT commit of an active lock goes through exactly when its rooms are free a second time, with the same ledger |
| HotelModel.HotelBookingModel.Execute | scripts/rq2/hotel-booking-model.ts:55-104 | every operation takes the model to the stepped state |
| HotelModel.InitialExactly | scripts/rq2/hotel-booking-model.ts:42-53 | a new hotel: given price and rooms, lock size at least one, empty books |
| HotelModel.BookingExactly | scripts/rq2/hotel-booking-model.ts:58-67 | when a booking is refused and why, and everything it changes |
| HotelModel.LockingExactly | scripts/rq2/hotel-booking-model.ts:68-76 | the same for a lock, and the price and rooms it reports |
| HotelModel.UnlockingExactly | scripts/rq2/hotel-booking-model.ts:77-83 | the same for a release, with the clamp |
| HotelModel.ReadersAnswerExactly | scripts/rq2/hotel-booking-model.ts:84-95 | what each reader answers |
| HotelRefinement.InitAgrees | contracts/xsmart/bc3/hotel_booking.go:42-54 | initialising chaincode and model gives corresponding states |
| HotelRefinement.StepAgreesExactly | contracts/xsmart/bc3/hotel_booking.go:123-253 | from corresponding states one operation has the same verdict, the same values exactly when they fit 64 bits, and corresponding states exactly when what it adds fits |
| HotelRefinement.RunsCorrespondExactly | contracts/xsmart/bc3/hotel_booking.go:344-361 | over any run of the bridge chaincode and model correspond after every operation if and only if nothing an operation adds passes 64 bits |
| HotelRefinement.RunsAgree | scripts/rq2/hotel-booking-model.ts:42-136 | then answers agree, too, at every step |
| Vassp.EncodeLength | contracts/xsmart/bc3/vassp.go:97-109 | the scan over eight bytes yields the shortest big-endian length |
| Vassp.EncodeBytes | contracts/xsmart/bc3/vassp.go:66-79 | the RLP string of a byte string |
| Vassp.EncodeList | contracts/xsmart/bc3/vassp.go:81-95 | the RLP list of concatenated items |
| Vassp.Encode | contracts/xsmart/bc3/vassp.go:53-64 | the RLP list of (slot, value) lists |
| Layouts.RlpStringLayout | contracts/xsmart/bc3/vassp.go:66-79 | RLP strings byte by byte: small byte, short form, long form with the shortest length |
| Layouts.RlpListLayout | contracts/xsmart/bc3/vassp.go:81-95 | RLP lists likewise |
| Layouts.PairsLayout | contracts/xsmart/bc3/vassp.go:53-64 | a pair is the list of slot and value in that order; pairs follow each other |
| Layouts.WordLayout | contracts/xsmart/bc3/vassp.go:15-19 | a number is 24 zero bytes and 8 big-endian bytes |
| Layouts.TupleLayout | contracts/xsmart/bc3/vassp.go:15-36 | the ABI tuple word by word, zero padding included |
| Layouts.ExportLayout | contracts/xsmart/bc3/hotel_booking.go:149-177 | the export is the pair of the record, then the pair of the lock total |
| Layouts.HexLayout | contracts/xsmart/bc3/xbridge_bc3.go:508-516 | two lower-case digits per byte, the high one first |
| VasspDecoder.DecodesExactlyEncodings | contracts/xsmart/bc3/vassp.go:53-109 | a strict decoder returns the pairs with nothing left over, and accepts nothing but encodings, so headers are minimal |
| VasspDecoder.EncodingIsInjective | contracts/xsmart/bc3/vassp.go:53-64 | different pair lists never share an encoding |
| Export.ReadWrittenMeta | contracts/xsmart/bc3/vassp.go:15-36 | the ABI tuple is read back through its offset, padding included |
| Export.BytesToHex | contracts/xsmart/bc3/xbridge_bc3.go:508-516 | the buffer loop writes two hex digits per byte |
| Export.UnhexHex | contracts/xsmart/bc3/xbridge_bc3.go:508-516 | hex text is read back |
| Export.ExportIsLossless | contracts/xsmart/bc3/hotel_booking.go:149-177 | the exported text determines bridge, price, rooms, lock size and lock total |
| Export.ExportIsInjective | contracts/xsmart/bc3/hotel_booking.go:149-177 | different states never share an exported text |
| CanonicalSnapshot.EncodeValue | scripts/rq2/canonical-snapshot.ts:65-80 | tagged values, and exactly which are out of range |
| CanonicalSnapshot.Take | scripts/rq2/canonical-snapshot.ts:82-98 | the encoder pushes the sorted entries, and when it throws |
| Layouts.ValueLayout | scripts/rq2/canonical-snapshot.ts:65-80 | the tags, widths and lengths of the four kinds of value |
| Layouts.EntryLayout | scripts/rq2/canonical-snapshot.ts:88-91 | an entry is its key, with length, and its value |
| Layouts.Utf8Layout | scripts/rq2/canonical-snapshot.ts:49-51 | code points in one to four bytes, six bits in each but the first |
| Layouts.SnapshotLayout | scripts/rq2/canonical-snapshot.ts:82-91 | format letters, contract name with length, entries in key order |
| Layouts.SnapshotExistsExactly | scripts/rq2/canonical-snapshot.ts:37-63 | exactly which contents have a snapshot |
| CanonicalSnapshot.SnapshotParsesBack | scripts/rq2/canonical-snapshot.ts:37-96 | contract name and sorted typed entries are recoverable from the bytes |
| CanonicalSnapshot.OrderDoesNotMatter | scripts/rq2/canonical-snapshot.ts:83 | with keys distinct under the comparator the bytes do not depend on entry order |
| CanonicalSnapshot.SameBytesSameEntries | scripts/rq2/canonical-snapshot.ts:82-96 | over the same keys, equal bytes exactly mean equal entries, for any comparator |
| DexProperties.RunIsStepwise | scripts/rq2/run-rq2a.ts:541-545 | a run of the pool executes its operations one after the other |
| TokenModel.RunIsStepwise | scripts/rq2/run-rq2a.ts:501-505 | the same for the token |
| AuctionModel.RunIsStepwise | scripts/rq2/run-rq2a.ts:521-525 | the same for the auction, from no auction and nothing owed |
| SnapshotOracle.HotelRunIsStepwise | scripts/rq2/run-rq2a.ts:423-427 | the same for the hotel |
| SnapshotContents.DexSnapshotShows | scripts/rq2/rq2-models.ts:324-334 | read back, the snapshot after any operation list shows reserveA, reserveB, totalShares and shares.user with the pool's values for exactly the mentioned users, once each |
| SnapshotContents.TokenSnapshotShows | scripts/rq2/rq2-models.ts:154-168 | the same for the token: supply, balances, allowances |
| SnapshotContents.HotelSnapshotShows | scripts/rq2/hotel-booking-model.ts:106-131 | the same for the hotel and the train |
| SnapshotContents.AuctionSnapshotShows | scripts/rq2/rq2-models.ts:239-256 | the same for the auction |
| SnapshotOracle.PushParts | scripts/rq2/rq2-models.ts:154-165 | the snapshot loops push the parts of each touched name, family by family, names in sorted order |
| SnapshotOracle.BytesDecide | scripts/rq2/run-rq2a.ts:440-454 | if both snapshots exist, comparing bytes decides equality of two states that agree outside the touched names |
| SnapshotOracle.DexOracleDecides | scripts/rq2/run-rq2a.ts:154-156 | after any operation list the comparison of existing snapshots decides full equality of pools |
| SnapshotOracle.HotelOracleDecides | scripts/rq2/run-rq2a.ts:101-113 | the same for the hotel and the train |
| SnapshotOracle.TokenOracleDecides | scripts/rq2/run-rq2a.ts:115-138 | the same for the token |
| SnapshotOracle.AuctionOracleDecides | scripts/rq2/run-rq2a.ts:140-152 | the same for the auction |
| Lcg.Generator.Next | scripts/rq2/generate-cases.ts:36-39 | the signed product and unsigned truncation compute the congruential step |
| Lcg.Generator.Int | scripts/rq2/generate-cases.ts:40-42 | a draw takes one step and is the new state reduced below the bound |
| Lcg.StepIsCongruential | scripts/rq2/generate-cases.ts:36-39 | the JavaScript expression equals (1664525 s + 1013904223) mod 2^32 |
| Lcg.LowBitsHaveFullPeriod | scripts/rq2/generate-cases.ts:31-42 | the low k bits return after exactly the multiples of 2^k steps |
| Lcg.FullPeriod | scripts/rq2/generate-cases.ts:31-42 | from any seed the first 2^32 states are pairwise distinct |
| Layouts.SeedsAdvance | scripts/rq2/generate-cases.ts:49 | the seeds of consecutive cases are 7919 apart, counted in 32 bits |
| Lcg.CaseSeedsDistinct | scripts/rq2/generate-cases.ts:49 | two cases share a seed exactly when their indices agree modulo 2^32 |
| Throughput.PhaseIsByInterval | scripts/benchmark/rq3-throughput.ts:392-402 | the phase is given by the interval the completion falls in |
| Throughput.Driver.FillPipeline | scripts/benchmark/rq3-throughput.ts:501-506 | filling keeps the in-flight limit and the bookkeeping, and leaves the pipeline full unless the measurement is over |
| Throughput.Driver.PollOne | scripts/benchmark/rq3-throughput.ts:520-546 | a terminal status closes its sample with status, time and phase and leaves everything else |
| Throughput.TerminalSampleIsThePoll | scripts/benchmark/rq3-throughput.ts:520-546 | a terminal sample has the outcome of the poll that found it so, the time of the reading then, and the phase of that time |
| Throughput.OpenSampleIsBlank | scripts/benchmark/rq3-throughput.ts:479-494 | a request in flight has nothing recorded but itself |
| Throughput.Driver.Drive | scripts/benchmark/rq3-throughput.ts:511-568 | the drive ends, only once the measurement is over; the limit is never exceeded; every request ends exactly terminal, as some poll saw it, or timed out, and that only after a reading past the drain deadline |
| Throughput.Driver.Report | scripts/benchmark/rq3-throughput.ts:553-614 | the figures count the samples the drive leaves, one per submitted request; completions = warm-up + measurement + post-measurement, requests = terminal + timed out; each phase counts exactly the completions observed in its interval, and completed and rolled back count exactly the polls that said so |
| Throughput.SummaryAddsUp | scripts/benchmark/rq3-throughput.ts:570-579 | the same sums over any list of closed samples |
| GasScan.FirstBlockAtOrAfter | scripts/benchmark/rq3-gas.ts:702-720 | the first late-enough block, or the latest block if there is none |
| GasScan.LastBlockAtOrBefore | scripts/benchmark/rq3-gas.ts:722-740 | the last early-enough block, or block zero if there is none |
| GasScan.ScanRange | scripts/benchmark/rq3-gas.ts:834-839 | on a chain other than bc1 the scanned blocks are exactly the window's if and only if the window reaches the chain; spelled out, those from startTime - margin to finalTime + margin; otherwise the nearest block is scanned |
| GasScan.CountsPlainly | scripts/benchmark/rq3-gas.ts:831-839 | which blocks of a group count, with the bounds spelled out |
| GasScan.GroupChains | scripts/benchmark/rq3-gas.ts:825-829 | each chain name is in exactly one group, that of its fingerprint |
| GasScan.ScanAll | scripts/benchmark/rq3-gas.ts:813-845 | each group of equal fingerprints is scanned once, through bc1 and over the run's own blocks if bc1 is in it, over the time window otherwise; the transactions of all scans are concatenated |
| GasScan.EachBlockCountsOnce | scripts/benchmark/rq3-gas.ts:759-845 | of any kind of transactions the scan collects exactly the gas in the blocks that count, each block of each group once |
| GasScan.Aggregate | scripts/benchmark/rq3-gas.ts:953-966 | the total is the sum over categories, paper categories and chains, each entry the gas of its transactions |

## Left out

- Amounts are naturals: negative or malformed decimal strings given to `BigInt` are not modelled.
- JSON marshalling, Fabric events other than the exported state, and MSP checks beyond comparing names: cells are typed, and a parse error is a cell of the wrong type.
- Lone surrogates and NFC normalisation: snapshot strings are sequences of Unicode scalar values, already normalised.
- The `bytes` snapshot type takes raw bytes; parsing its hex text is not modelled.
- The hashes (`keccak256` of a snapshot, `vasspSlotID`) are opaque: slot ids are parameters, and comparisons are of bytes, not of hashes.
- `SetStateContract`, `GetIrHash` and the relayer queries: they would only add easy members.
- `InitLedger` of the hotel in the middle of a disciplined run, `ResetAuction` and `ResetPending`: resets that break conservation by design.
- Chaincode lock entries with a wrong-typed cell under a hotel key: reachable ledgers hold none; results about runs start from an empty ledger.
- HotelRefinement.RunsAgree: LockState of the chaincode returns nothing where the model reports price and rooms, so only the verdict is compared for that operation.
- Throughput.Driver.Drive: a poll that keeps throwing, the sleeps and the latency figures are not modelled; the clock is assumed to pass the drain deadline for good.
- GasScan.ScanAll: chains are fixed during the scan; which transactions of a block are watched, and their classification, is taken as given.
- Snapshot arrays: the sort is a stable insertion sort and the comparator is any function; the host's sort algorithm and locale tables are not modelled.
- The Solidity and ink! contracts, the relayer, deployment and plotting scripts, and floating-point summaries.
