# Contact-session bookkeeping of run.py

`run.py` drives a SUMO traffic simulation in steps of 0.1 s. On every step
it records, for each car and each bus, the periods in which the car was
within the bus's 100 m communication range. Each such period is a session
with an enter time, an exit time and a stay time. The record is a nested
dictionary, `vehicle_records`, from car id to bus id to a list of
sessions. When the simulation ends, the record is flattened into CSV rows.
An exit or stay time that is missing is written as "N/A".

This project models that bookkeeping and proves its properties.

- `Sessions` defines a session and a pair's history. It gives the per-pair
  step (open a session when in range and none is open, close the open
  session when out of range) and closing on departure as functions, and
  proves their properties.
- `Geometry` defines positions and the range test. The test compares the
  squared distance with 100²; a lemma shows it agrees with the source's
  `math.sqrt` test.
- `Vehicles` defines vehicle ids, the bus/car partition by the `"bus"`
  prefix, and the keys that a run of dictionary insertions appends. Python
  dictionaries keep insertion order, and the export visits keys in that
  order.
- `Ledgers` gives the record as a value, and a tick as three functions on
  it: update the live pairs, close departed cars, and the bus-exit check. It
  proves what a tick does to every pair, to keys and to chronological order.
- `Tracking` is the simulation loop's state as an object. A `Tracker` holds
  the record, the two key orders and the clock. Its `Tick` runs the
  source's nested loops over module-level methods. Each of those methods is
  proved to compute the corresponding phase function exactly.
- `Export` gives the CSV rows, both as a function and as the source's three
  nested loops. A proof shows that the rows of each pair are exactly its
  sessions, in order.

The source's bus-exit loop (run.py:76-84) iterates over `bus_ids`, and
`bus_ids` is drawn from the same tick's `vehicle_ids` (run.py:31). Its
test `bus_id not in vehicle_ids` is therefore never true. The model keeps
this loop as written. `Ledgers.TickSkipsBusExit` proves it changes nothing.
`Ledgers.TickKeepsVanishedBus` shows the consequence: an open session with
a bus that has left stays open while the car is still live. When the car
leaves, phase 2 closes it at the car's departure time
(`Ledgers.TickClosesDepartedCar`), so the recorded contact lasts longer
than the bus was present. Only the sessions of cars still live when the run
ends are exported with "N/A". There is no step that closes the remaining
sessions when the run ends.

## Model

| member | source | states |
|---|---|---|
| Geometry.InRangeIffDistanceWithin | run.py:6-7 | For the non-negative square root of the squared distance, the squared test holds exactly when that distance is at most `comm_range`. The threshold is inclusive. |
| Vehicles.Partition | run.py:30-32 | The buses (cars) are exactly the ids that do (do not) start with "bus". The partition of distinct ids is distinct. |
| Vehicles.PartitionSizes | run.py:30-32 | Every live id lands in exactly one of the two lists. |
| Vehicles.NewKeysMembers | run.py:37-38 | Inserting keys appends exactly the keys not yet present. Each is appended once when the inserted keys are distinct. |
| Sessions.StepPairSpec | run.py:54-65 | After the step the pair has an open session exactly when in range. The history only grows: at most one session is appended, and only a fresh one at `t` when in range with none open. The history is unchanged when its open state already matches the range. |
| Sessions.CloseOpenSpec | run.py:62-65 | Closing leaves no session open. Only the open session changes: it keeps its enter time and gets exit `t` and stay `t - enter`. |
| Sessions.OnlyLastOpen | run.py:59-60 | In a chronological history every session but the last is closed. |
| Sessions.ChronologicalLater | run.py:87 | Advancing the clock keeps a history chronological. |
| Sessions.CloseOpenChronological | run.py:71-74 | Closing at a time no earlier than any recorded event keeps the history chronological. |
| Sessions.StepPairChronological | run.py:57-65 | Stepping at such a time keeps the history chronological. A new session enters no earlier than the previous one's exit. |
| Sessions.GrowsTransitive | run.py:60 | Growth composes across ticks: a closed session is never changed again, and an open one keeps its enter time. |
| Ledgers.CloseDepartedBusesNoop | run.py:76-84 | The bus-exit phase changes nothing when every bus it checks is live. |
| Ledgers.TickSkipsBusExit | run.py:31-84 | A tick's bus-exit phase is a no-op, because it checks only the tick's own buses. |
| Ledgers.TickKeys | run.py:37-51 | After a tick the record's keys are the old keys plus the live cars. Each live car's buses are its old buses plus the live buses, in range or not. Other keys are unchanged. |
| Ledgers.TickOpenIffInRange | run.py:57-65 | For a live car and a live bus, the pair's last session is open after the tick exactly when they are in range. |
| Ledgers.TickAppendsOnlyInRange | run.py:55-60 | A session is appended only to a live pair in range with no open session, and it enters at the tick's time. Otherwise the history keeps its length. |
| Ledgers.TickClosesDepartedCar | run.py:68-74 | A recorded car missing from the tick has every history closed at the tick's time. It keeps its keys and has no open session. |
| Ledgers.TickDepartedIdempotent | run.py:68-74 | A later tick leaves a departed car with no open session exactly as it was. |
| Ledgers.TickKeepsVanishedBus | run.py:76-84 | A live car's history with a bus that has left is unchanged. An open session stays open. |
| Ledgers.TickGrows | run.py:35-74 | A tick removes no key, car or bus, and every history only grows. |
| Ledgers.TickChronological | run.py:57-74 | A tick at a time no earlier than any recorded event keeps every history chronological. Sessions do not overlap, and each stay is exit minus enter. |
| Ledgers.LedgerChronologicalLater | run.py:87 | Advancing the clock keeps the record chronological. |
| Ledgers.UpdateLiveOrdered | run.py:35-51 | Phase 1 keeps both key orders listing exactly the record's keys, each once. |
| Ledgers.UpdatedCarOrdered | run.py:40-51 | A live car's new bus-key order lists the keys of its updated entry, each once. |
| Ledgers.TickOrdered | run.py:35-84 | A whole tick keeps both key orders in step with the record. |
| Ledgers.TickValid | run.py:35-87 | A tick keeps the key orders in step and the histories chronological, up to the advanced clock. |
| Ledgers.UpdateLiveSnoc | run.py:35-38 | Phase 1 over one more car is phase 1 so far with that car's entry updated. |
| Ledgers.UpdateBusOrderSnoc | run.py:35-51 | The same holds for the bus-key order. |
| Ledgers.UpdateEntrySnoc | run.py:40-65 | One car's phase 1 over one more bus is the same with that pair stepped. |
| Ledgers.UpdateEntryStep | run.py:40-65 | Step `j` of the loop over the live buses extends the entry and its key order by bus `j`. |
| Ledgers.UpdateLiveStep | run.py:35-65 | Step `i` of the loop over the live cars extends the record and both orders by car `i`. |
| Ledgers.CloseEntryAll | run.py:70-74 | An entry with every history closed at `t` is the closed entry. |
| Ledgers.CloseDepartedCarsAll | run.py:68-74 | A record with exactly the departed cars' entries closed is phase 2's result. |
| Ledgers.CloseBusAll | run.py:78-84 | A record with every history with `bus` closed is the bus-closing result. |
| Tracking.CloseRecords | run.py:62-65 | The close-the-last-session code computes `CloseOpen`. |
| Tracking.UpdatePair | run.py:50-65 | One pass of the bus loop gives the pair a history if it has none, appending the bus to the order exactly then, and steps it. |
| Tracking.UpdateCarEntry | run.py:40-65 | The loop over the live buses computes the car's phase-1 entry and its new bus-key order. |
| Tracking.UpdateCar | run.py:35-65 | One pass of the car loop gives the car an entry if it has none, appending the car to the order exactly then, and updates it. |
| Tracking.UpdateCars | run.py:35-65 | The loop over the live cars computes phase 1 and both new key orders. |
| Tracking.CloseCarEntry | run.py:70-74 | The loop over a departed car's buses computes the closed entry. |
| Tracking.CloseCars | run.py:68-74 | The loop over the record's cars computes phase 2 and keeps the keys. |
| Tracking.CloseBusSessions | run.py:78-84 | The loop over the record's cars for one departed bus closes every session with that bus. |
| Tracking.CloseBuses | run.py:76-84 | The loop over the tick's buses computes the bus-exit phase. |
| Tracking.Tracker.constructor | run.py:17-19 | The record starts empty, with the clock at 0, and the invariant holds. |
| Tracking.Tracker.Tick | run.py:30-87 | One loop pass updates the record to the tick function at the old clock and the key orders to the insertion orders. It advances the clock by 0.1 and keeps the invariant (orders in step, histories chronological). |
| Export.PairRows | run.py:104-110 | One row per session of the pair, in order. |
| Export.RowOfCells | run.py:105-110 | A row shows "N/A" for exit and stay exactly when its session is open. Otherwise it shows the exit time and exit minus enter. |
| Export.SelectConcat | run.py:102-110 | Selecting a pair's rows distributes over concatenation. |
| Export.SelectPairRows | run.py:104-110 | A pair's own rows select to themselves, and another pair's to nothing. |
| Export.SelectEntryRows | run.py:103-110 | Within one car's rows, a listed bus's rows are its history's rows. |
| Export.SelectExportRows | run.py:102-110 | Within all rows, a listed pair's rows are its history's rows. |
| Export.ExportPairRows | run.py:102-110 | The export holds, for every pair of the record, exactly one row per session, in order, and no row for any other pair. |
| Export.ExportRowsSound | run.py:102-104 | Every row names a listed car and one of its listed buses. |
| Export.EntryRowsSound | run.py:103-104 | Every row of a car's rows names that car and a listed bus. |
| Export.ExportRowsConcat | run.py:102-103 | Rows are grouped by car: exporting `a + b` is exporting `a`, then `b`. |
| Export.EntryRowsConcat | run.py:103-104 | A car's rows are grouped by bus in the same way. |
| Export.WritePairRows | run.py:105-110 | The innermost export loop writes the pair's rows. |
| Export.WriteEntryRows | run.py:103-110 | The loop over a car's buses writes the car's rows. |
| Export.WriteRows | run.py:102-110 | The export loops write exactly the exported rows. |

## Left out

- TraCI and SUMO (run.py:1-4, 9-15, 22-28, 89): starting and stepping the simulator, `getIDList`, `getPosition`, rerouting `bus3`, and closing the connection are foreign calls. A tick instead receives the live ids as a sequence and the positions as a function.
- The driver loop's stopping rule (run.py:22): the expected-vehicle count and the 300 s end time are external. The model exposes one tick and leaves the sequence of ticks to the caller.
- Floating point: times and coordinates are exact reals. The accumulated error of `simulation_time += 0.1` and the rounding of `math.sqrt` are not modelled. The range test compares squared distances instead of taking a square root.
- File output (run.py:93-101): path resolution, the CSV header and the CSV encoding of cells are I/O. The model stops at the row sequence.
- In-place list mutation: the source appends to the list held in the record, and writes exit and stay into the last session's dictionary. The model replaces a pair's history with its new value. No other reference to a history exists, so nothing observes the difference.
- Tracking.Tracker.Tick: requires the tick's ids to be distinct, as SUMO reports each vehicle once.
