/**
 * The simulation loop's bookkeeping as an object: the record dictionary, its
 * key order and the simulation clock, updated in place once per tick.
 */
module Tracking {
  import opened Sessions
  import opened Geometry
  import opened Vehicles
  import opened Ledgers

  /** Simulation time added per tick, in seconds (the step length SUMO is started with). */
  const StepLength: real := 0.1

  /**
   * Closing a pair's last session if it is open (run.py, the same test on
   * leaving the range and on departure): its exit time becomes `t` and its
   * stay the time since it was entered.
   */
  method CloseRecords(records: History, t: Time) returns (r: History)
    ensures r == CloseOpen(records, t)
  {
    r := records;
    if IsOpen(r) {
      var last := r[|r| - 1];
      r := r[..|r| - 1] + [Closed(last, t)];
    }
  }

  /**
   * The body of the inner loop for one pair (run.py): the bus gets an empty
   * history with the car if it has none; then, with the car in range, a
   * session is opened unless one is open, and out of range the open one is
   * closed.
   */
  method UpdatePair(entry: Entry, order: seq<VehicleId>, car: VehicleId, bus: VehicleId,
                    pos: VehicleId -> Position, t: Time)
    returns (entry': Entry, order': seq<VehicleId>)
    ensures entry' == entry[bus := StepPair(HistoryIn(entry, bus), t, InRange(pos(bus), pos(car)))]
    ensures order' == order + (if bus in entry then [] else [bus])
  {
    entry', order' := entry, order;
    if bus !in entry' {
      entry' := entry'[bus := []];
      order' := order' + [bus];
    }
    var records := entry'[bus];
    if InRange(pos(bus), pos(car)) {
      if !IsOpen(records) {
        records := records + [Entered(t)];
      }
    } else {
      records := CloseRecords(records, t);
    }
    entry' := entry'[bus := records];
  }

  /**
   * The loop over the live buses for one car (run.py, inner loop of the
   * record update): each live bus's pair with the car is stepped in turn.
   * `entry` is the car's inner dictionary and `order` its key order.
   */
  method UpdateCarEntry(entry: Entry, order: seq<VehicleId>, car: VehicleId, buses: seq<VehicleId>,
                        pos: VehicleId -> Position, t: Time)
    returns (entry': Entry, order': seq<VehicleId>)
    requires Distinct(buses) && SetOf(order) == entry.Keys
    ensures entry' == UpdateEntry(entry, car, buses, pos, t)
    ensures order' == order + NewKeys(order, buses)
  {
    entry', order' := entry, order;
    assert buses[..0] == [];
    assert UpdateEntry(entry, car, [], pos, t) == entry;
    for j := 0 to |buses|
      invariant entry' == UpdateEntry(entry, car, buses[..j], pos, t)
      invariant order' == order + NewKeys(order, buses[..j])
    {
      UpdateEntryStep(entry, order, car, buses, j, pos, t);
      entry', order' := UpdatePair(entry', order', car, buses[j], pos, t);
    }
    assert buses[..|buses|] == buses;
  }

  /**
   * The body of the outer loop for one live car (run.py): the car gets an
   * empty entry if it has none, then its entry is updated against every
   * live bus.
   */
  method UpdateCar(L: Ledger, carOrder: seq<VehicleId>, busOrder: BusOrder, car: VehicleId,
                   buses: seq<VehicleId>, pos: VehicleId -> Position, t: Time)
    returns (L': Ledger, carOrder': seq<VehicleId>, busOrder': BusOrder)
    requires Ordered(L, carOrder, busOrder) && Distinct(buses)
    ensures L' == L[car := UpdateEntry(EntryOf(L, car), car, buses, pos, t)]
    ensures carOrder' == carOrder + (if car in L then [] else [car])
    ensures busOrder' == busOrder[car := OrderOf(busOrder, car) + NewKeys(OrderOf(busOrder, car), buses)]
  {
    L', carOrder', busOrder' := L, carOrder, busOrder;
    if car !in L' {
      L' := L'[car := map[]];
      carOrder' := carOrder' + [car];
      busOrder' := busOrder'[car := []];
    }
    var entry, order := UpdateCarEntry(L'[car], busOrder'[car], car, buses, pos, t);
    L' := L'[car := entry];
    busOrder' := busOrder'[car := order];
  }

  /**
   * The loop over the live cars (run.py, record update): each car gets an
   * entry if it has none, then its entry is updated against every live bus.
   */
  method UpdateCars(L: Ledger, carOrder: seq<VehicleId>, busOrder: BusOrder, cars: seq<VehicleId>,
                    buses: seq<VehicleId>, pos: VehicleId -> Position, t: Time)
    returns (L': Ledger, carOrder': seq<VehicleId>, busOrder': BusOrder)
    requires Ordered(L, carOrder, busOrder) && Distinct(cars) && Distinct(buses)
    ensures L' == UpdateLive(L, cars, buses, pos, t)
    ensures carOrder' == carOrder + NewKeys(carOrder, cars)
    ensures busOrder' == UpdateBusOrder(busOrder, cars, buses)
  {
    L', carOrder', busOrder' := L, carOrder, busOrder;
    assert cars[..0] == [];
    assert UpdateLive(L, [], buses, pos, t) == L;
    assert UpdateBusOrder(busOrder, [], buses) == busOrder;
    for i := 0 to |cars|
      invariant L' == UpdateLive(L, cars[..i], buses, pos, t)
      invariant carOrder' == carOrder + NewKeys(carOrder, cars[..i])
      invariant busOrder' == UpdateBusOrder(busOrder, cars[..i], buses)
    {
      UpdateLiveStep(L, carOrder, busOrder, cars, i, buses, pos, t);
      L', carOrder', busOrder' := UpdateCar(L', carOrder', busOrder', cars[i], buses, pos, t);
    }
    assert cars[..|cars|] == cars;
  }

  /** The loop over one departed car's buses: close each open session at `t`. */
  method CloseCarEntry(entry: Entry, order: seq<VehicleId>, t: Time) returns (entry': Entry)
    requires Distinct(order) && SetOf(order) == entry.Keys
    ensures entry' == CloseEntry(entry, t)
  {
    entry' := entry;
    for j := 0 to |order|
      invariant entry'.Keys == entry.Keys
      invariant forall b :: b in entry ==> entry'[b] == if b in order[..j] then CloseOpen(entry[b], t) else entry[b]
    {
      var bus := order[j];
      assert order[..j + 1] == order[..j] + [bus];
      assert bus !in order[..j];
      var records := CloseRecords(entry'[bus], t);
      entry' := entry'[bus := records];
    }
    assert order[..|order|] == order;
    CloseEntryAll(entry, entry', t);
  }

  /**
   * The loop over the record's car keys (run.py, departed cars): a car missing
   * from `ids` has the open session of each of its pairs closed at `t`.
   */
  method CloseCars(L: Ledger, carOrder: seq<VehicleId>, busOrder: BusOrder, ids: seq<VehicleId>, t: Time)
    returns (L': Ledger)
    requires Ordered(L, carOrder, busOrder)
    ensures L' == CloseDepartedCars(L, ids, t) && L'.Keys == L.Keys
  {
    L' := L;
    for i := 0 to |carOrder|
      invariant L'.Keys == L.Keys
      invariant forall c :: c in L ==> L'[c] == if c in carOrder[..i] && c !in ids then CloseEntry(L[c], t) else L[c]
    {
      var car := carOrder[i];
      assert carOrder[..i + 1] == carOrder[..i] + [car];
      assert car !in carOrder[..i];
      if car !in ids {
        var entry := CloseCarEntry(L'[car], busOrder[car], t);
        L' := L'[car := entry];
      }
    }
    assert carOrder[..|carOrder|] == carOrder;
    CloseDepartedCarsAll(L, L', ids, t);
  }

  /**
   * The loop over the record's car keys for one bus that has left: every
   * car's open session with it is closed at `t`.
   */
  method CloseBusSessions(L: Ledger, carOrder: seq<VehicleId>, bus: VehicleId, t: Time) returns (L': Ledger)
    requires Distinct(carOrder) && SetOf(carOrder) == L.Keys
    ensures L' == CloseBus(L, bus, t)
  {
    L' := L;
    for j := 0 to |carOrder|
      invariant L'.Keys == L.Keys
      invariant forall c :: c in L ==> L'[c] == if c in carOrder[..j] && bus in L[c] then L[c][bus := CloseOpen(L[c][bus], t)] else L[c]
    {
      var car := carOrder[j];
      assert carOrder[..j + 1] == carOrder[..j] + [car];
      assert car !in carOrder[..j];
      if bus in L'[car] {
        var records := CloseRecords(L'[car][bus], t);
        L' := L'[car := L'[car][bus := records]];
      }
    }
    assert carOrder[..|carOrder|] == carOrder;
    CloseBusAll(L, L', bus, t);
  }

  /**
   * The loop over the tick's bus ids (run.py, departed buses): each bus of
   * `buses` missing from `ids` has its sessions closed at `t`.
   */
  method CloseBuses(L: Ledger, carOrder: seq<VehicleId>, buses: seq<VehicleId>, ids: seq<VehicleId>, t: Time)
    returns (L': Ledger)
    requires Distinct(carOrder) && SetOf(carOrder) == L.Keys
    ensures L' == CloseDepartedBuses(L, buses, ids, t)
  {
    L' := L;
    for i := 0 to |buses|
      invariant L'.Keys == L.Keys
      invariant L' == CloseDepartedBuses(L, buses[..i], ids, t)
    {
      var bus := buses[i];
      assert buses[..i + 1][..i] == buses[..i];
      if bus !in ids {
        L' := CloseBusSessions(L', carOrder, bus, t);
      }
    }
    assert buses[..|buses|] == buses;
  }

  class Tracker {
    /** Car id -> bus id -> sessions (run.py, `vehicle_records`). */
    var records: Ledger
    /** The car keys of `records` in insertion order. */
    var carOrder: seq<VehicleId>
    /** For each car, its bus keys in insertion order. */
    var busOrder: BusOrder
    /** run.py, `simulation_time`. */
    var time: Time

    /** The key orders list the keys, and every history is chronological up to the clock. */
    ghost predicate Valid()
      reads this
    {
      Ordered(records, carOrder, busOrder) && 0.0 <= time && LedgerChronological(records, time)
    }

    constructor ()
      ensures Valid()
      ensures records == map[] && carOrder == [] && busOrder == map[] && time == 0.0
    {
      records, carOrder, busOrder, time := map[], [], map[], 0.0;
    }

    /**
     * One pass of the simulation loop over the tick's live ids `ids`, with
     * `pos` giving each live vehicle's position: update every live car
     * against every live bus, close the sessions of departed cars, run the
     * bus-exit check, and advance the clock.
     */
    method Tick(ids: seq<VehicleId>, pos: VehicleId -> Position)
      requires Valid() && Distinct(ids)
      modifies this
      ensures Valid()
      ensures records == TickLedger(old(records), ids, pos, old(time))
      ensures carOrder == TickCarOrder(old(carOrder), ids)
      ensures busOrder == TickBusOrder(old(busOrder), ids)
      ensures time == old(time) + StepLength
    {
      var next := time + StepLength;
      TickValid(records, carOrder, busOrder, ids, pos, time, next);
      var buses := Buses(ids);
      var L1, co, bo := UpdateCars(records, carOrder, busOrder, Cars(ids), buses, pos, time);
      var L2 := CloseCars(L1, co, bo, ids, time);
      var L3 := CloseBuses(L2, co, buses, ids, time);
      records, carOrder, busOrder := L3, co, bo;
      time := next;
    }
  }
}
