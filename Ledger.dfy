/**
 * The record structure of the tracker as a value (car id -> bus id -> history)
 * and the three phases of one tick as functions on it. The imperative tracker
 * in Tracker.dfy is proved to compute exactly these functions.
 */
module Ledgers {
  import opened Sessions
  import opened Geometry
  import opened Vehicles

  /** One car's entry: the history of that car with each bus it has been paired with. */
  type Entry = map<VehicleId, History>

  /** Car id to entry (run.py, `vehicle_records`). */
  type Ledger = map<VehicleId, Entry>

  function EntryOf(L: Ledger, car: VehicleId): Entry
  {
    if car in L then L[car] else map[]
  }

  function HistoryIn(e: Entry, bus: VehicleId): History
  {
    if bus in e then e[bus] else []
  }

  /** Every history in the ledger is chronological up to `now`. */
  predicate LedgerChronological(L: Ledger, now: Time)
  {
    forall c, b :: c in L && b in L[c] ==> Chronological(L[c][b], now)
  }

  /** `L'` extends `L`: no key is lost and every history only grows. */
  predicate LedgerGrows(L: Ledger, L': Ledger)
  {
    && L.Keys <= L'.Keys
    && (forall c :: c in L ==> L[c].Keys <= L'[c].Keys)
    && (forall c, b :: c in L && b in L[c] ==> Grows(L[c][b], L'[c][b]))
  }

  /**
   * Phase 1 for one live car: every live bus gets a (possibly empty) history
   * with the car, stepped by whether the two are in range; other buses'
   * histories are kept.
   */
  function UpdateEntry(e: Entry, car: VehicleId, buses: seq<VehicleId>, pos: VehicleId -> Position, t: Time): (r: Entry)
    ensures r.Keys == e.Keys + SetOf(buses)
  {
    map b | b in e.Keys + SetOf(buses) ::
      if b in buses then StepPair(HistoryIn(e, b), t, InRange(pos(b), pos(car))) else e[b]
  }

  /** Phase 1: every live car gets an entry, updated against every live bus. */
  function UpdateLive(L: Ledger, cars: seq<VehicleId>, buses: seq<VehicleId>, pos: VehicleId -> Position, t: Time): (r: Ledger)
    ensures r.Keys == L.Keys + SetOf(cars)
  {
    map c | c in L.Keys + SetOf(cars) ::
      if c in cars then UpdateEntry(EntryOf(L, c), c, buses, pos, t) else L[c]
  }

  /** Every history of an entry with its open session closed at `t`. */
  function CloseEntry(e: Entry, t: Time): Entry
  {
    map b | b in e :: CloseOpen(e[b], t)
  }

  /** An entry whose every history is closed at `t` is the entry closed at `t`. */
  lemma CloseEntryAll(e: Entry, e': Entry, t: Time)
    requires e'.Keys == e.Keys && forall b :: b in e ==> e'[b] == CloseOpen(e[b], t)
    ensures e' == CloseEntry(e, t)
  {
  }

  /** Phase 2: a car of the ledger missing from the tick's ids has its open sessions closed. */
  function CloseDepartedCars(L: Ledger, ids: seq<VehicleId>, t: Time): Ledger
  {
    map c | c in L :: if c in ids then L[c] else CloseEntry(L[c], t)
  }

  /** The open session of every car with `bus`, closed at `t`. */
  function CloseBus(L: Ledger, bus: VehicleId, t: Time): Ledger
  {
    map c | c in L :: if bus in L[c] then L[c][bus := CloseOpen(L[c][bus], t)] else L[c]
  }

  /** A ledger whose departed cars' entries are closed at `t`, and no other, is phase 2's result. */
  lemma CloseDepartedCarsAll(L: Ledger, L': Ledger, ids: seq<VehicleId>, t: Time)
    requires L'.Keys == L.Keys && forall c :: c in L ==> L'[c] == if c in ids then L[c] else CloseEntry(L[c], t)
    ensures L' == CloseDepartedCars(L, ids, t)
  {
  }

  /** A ledger whose every entry with `bus` has that pair closed at `t` is the ledger with `bus` closed. */
  lemma CloseBusAll(L: Ledger, L': Ledger, bus: VehicleId, t: Time)
    requires L'.Keys == L.Keys
    requires forall c :: c in L ==> L'[c] == if bus in L[c] then L[c][bus := CloseOpen(L[c][bus], t)] else L[c]
    ensures L' == CloseBus(L, bus, t)
  {
  }

  /** Phase 3: for each bus of `buses` that is missing from `ids`, close its sessions. */
  function CloseDepartedBuses(L: Ledger, buses: seq<VehicleId>, ids: seq<VehicleId>, t: Time): Ledger
  {
    if buses == [] then L
    else
      var L' := CloseDepartedBuses(L, buses[..|buses| - 1], ids, t);
      var bus := buses[|buses| - 1];
      if bus in ids then L' else CloseBus(L', bus, t)
  }

  /** The whole record update of one tick at time `t` over the live ids `ids`. */
  function TickLedger(L: Ledger, ids: seq<VehicleId>, pos: VehicleId -> Position, t: Time): Ledger
  {
    var buses := Buses(ids);
    CloseDepartedBuses(CloseDepartedCars(UpdateLive(L, Cars(ids), buses, pos, t), ids, t), buses, ids, t)
  }

  /** Phase 3 changes nothing when every bus it looks at is live. */
  lemma {:induction false} CloseDepartedBusesNoop(L: Ledger, buses: seq<VehicleId>, ids: seq<VehicleId>, t: Time)
    requires forall b :: b in buses ==> b in ids
    ensures CloseDepartedBuses(L, buses, ids, t) == L
  {
    if buses != [] {
      var init := buses[..|buses| - 1];
      assert forall b :: b in init ==> b in buses;
      CloseDepartedBusesNoop(L, init, ids, t);
      assert buses[|buses| - 1] in buses;
    }
  }

  /**
   * The bus-exit phase of a tick is dead: the buses it checks are drawn from
   * the tick's own ids, so none of them is missing and the ledger is unchanged.
   */
  lemma TickSkipsBusExit(L: Ledger, ids: seq<VehicleId>, pos: VehicleId -> Position, t: Time)
    ensures TickLedger(L, ids, pos, t) == CloseDepartedCars(UpdateLive(L, Cars(ids), Buses(ids), pos, t), ids, t)
  {
    CloseDepartedBusesNoop(CloseDepartedCars(UpdateLive(L, Cars(ids), Buses(ids), pos, t), ids, t), Buses(ids), ids, t);
  }

  /**
   * After a tick the ledger has a key for every car seen so far, and each
   * live car's entry has a history for each bus seen with it so far, in
   * range or not; nothing else is added.
   */
  lemma TickKeys(L: Ledger, ids: seq<VehicleId>, pos: VehicleId -> Position, t: Time)
    ensures var R := TickLedger(L, ids, pos, t);
      && R.Keys == L.Keys + SetOf(Cars(ids))
      && (forall c :: c in Cars(ids) ==> R[c].Keys == EntryOf(L, c).Keys + SetOf(Buses(ids)))
      && (forall c :: c in L && c !in Cars(ids) ==> R[c].Keys == L[c].Keys)
  {
    TickSkipsBusExit(L, ids, pos, t);
  }

  /**
   * For a live car and a live bus, the pair's last session is open after the
   * tick exactly when they are in range (the range being inclusive).
   */
  lemma TickOpenIffInRange(L: Ledger, ids: seq<VehicleId>, pos: VehicleId -> Position, t: Time, car: VehicleId, bus: VehicleId)
    requires car in ids && !IsBusId(car)
    requires bus in ids && IsBusId(bus)
    ensures var R := TickLedger(L, ids, pos, t);
      && car in R && bus in R[car]
      && (IsOpen(R[car][bus]) <==> InRange(pos(bus), pos(car)))
  {
    TickSkipsBusExit(L, ids, pos, t);
    var U := UpdateLive(L, Cars(ids), Buses(ids), pos, t);
    assert car in Cars(ids) && bus in Buses(ids);
    assert U[car][bus] == StepPair(HistoryIn(EntryOf(L, car), bus), t, InRange(pos(bus), pos(car)));
    StepPairSpec(HistoryIn(EntryOf(L, car), bus), t, InRange(pos(bus), pos(car)));
  }

  /**
   * A session is appended only to the history of a live car and a live bus
   * that are in range, and only when the pair had no open session; the new
   * session enters at the tick's time. Otherwise the length is unchanged.
   */
  lemma TickAppendsOnlyInRange(L: Ledger, ids: seq<VehicleId>, pos: VehicleId -> Position, t: Time, car: VehicleId, bus: VehicleId)
    requires var R := TickLedger(L, ids, pos, t);
      car in R && bus in R[car]
    ensures var h, R := HistoryIn(EntryOf(L, car), bus), TickLedger(L, ids, pos, t);
      if car in Cars(ids) && bus in Buses(ids) && InRange(pos(bus), pos(car)) && !IsOpen(h)
      then R[car][bus] == h + [Entered(t)]
      else |R[car][bus]| == |h|
  {
    TickSkipsBusExit(L, ids, pos, t);
    var U := UpdateLive(L, Cars(ids), Buses(ids), pos, t);
    var h := HistoryIn(EntryOf(L, car), bus);
    if car in Cars(ids) && bus in Buses(ids) {
      assert U[car][bus] == StepPair(h, t, InRange(pos(bus), pos(car)));
      StepPairSpec(h, t, InRange(pos(bus), pos(car)));
    } else if car in ids {
      assert car in L && bus in L[car];
      assert U[car][bus] == L[car][bus];
    } else {
      assert U[car] == L[car];
      CloseOpenSpec(L[car][bus], t);
    }
  }

  /**
   * A car of the ledger that is missing from the tick has every open session
   * closed at the tick's time, and none left open.
   */
  lemma TickClosesDepartedCar(L: Ledger, ids: seq<VehicleId>, pos: VehicleId -> Position, t: Time, car: VehicleId)
    requires car in L && car !in ids
    ensures var R := TickLedger(L, ids, pos, t);
      && car in R && R[car].Keys == L[car].Keys
      && (forall b :: b in L[car] ==> R[car][b] == CloseOpen(L[car][b], t) && !IsOpen(R[car][b]))
  {
    TickSkipsBusExit(L, ids, pos, t);
    var U := UpdateLive(L, Cars(ids), Buses(ids), pos, t);
    assert car !in Cars(ids);
    assert U[car] == L[car];
    forall b | b in L[car] ensures !IsOpen(CloseOpen(L[car][b], t)) {
      CloseOpenSpec(L[car][b], t);
    }
  }

  /**
   * Closing on departure is idempotent: a car that is still missing and has
   * no open session is left exactly as it was by every later tick.
   */
  lemma TickDepartedIdempotent(L: Ledger, ids: seq<VehicleId>, pos: VehicleId -> Position, t: Time, car: VehicleId)
    requires car in L && car !in ids
    requires forall b :: b in L[car] ==> !IsOpen(L[car][b])
    ensures var R := TickLedger(L, ids, pos, t);
      car in R && R[car] == L[car]
  {
    TickClosesDepartedCar(L, ids, pos, t, car);
    var R := TickLedger(L, ids, pos, t);
    assert forall b :: b in L[car] ==> R[car][b] == L[car][b];
  }

  /**
   * The session of a live car with a bus that has left the simulation is left
   * as it is, so an open one stays open: the source closes such sessions only
   * in its bus-exit phase, which never fires.
   */
  lemma TickKeepsVanishedBus(L: Ledger, ids: seq<VehicleId>, pos: VehicleId -> Position, t: Time, car: VehicleId, bus: VehicleId)
    requires car in ids && car in L && bus in L[car] && bus !in ids
    ensures var R := TickLedger(L, ids, pos, t);
      car in R && bus in R[car] && R[car][bus] == L[car][bus]
  {
    TickSkipsBusExit(L, ids, pos, t);
    var U := UpdateLive(L, Cars(ids), Buses(ids), pos, t);
    assert bus !in Buses(ids);
    if car in Cars(ids) {
      assert U[car][bus] == L[car][bus];
    }
  }

  /** A tick never drops a key, a history or a closed session, and keeps open sessions' enter times. */
  lemma TickGrows(L: Ledger, ids: seq<VehicleId>, pos: VehicleId -> Position, t: Time)
    ensures LedgerGrows(L, TickLedger(L, ids, pos, t))
  {
    TickSkipsBusExit(L, ids, pos, t);
    var U := UpdateLive(L, Cars(ids), Buses(ids), pos, t);
    var R := TickLedger(L, ids, pos, t);
    forall c, b | c in L && b in L[c] ensures Grows(L[c][b], R[c][b]) {
      if c in ids {
        assert R[c][b] == U[c][b];
        if c in Cars(ids) && b in Buses(ids) {
          assert U[c][b] == StepPair(L[c][b], t, InRange(pos(b), pos(c)));
          StepPairSpec(L[c][b], t, InRange(pos(b), pos(c)));
        } else {
          assert U[c][b] == L[c][b];
        }
      } else {
        assert U[c] == L[c];
        assert R[c][b] == CloseOpen(L[c][b], t);
        CloseOpenSpec(L[c][b], t);
      }
    }
  }

  /**
   * If every recorded event is no later than the tick's time, the histories
   * stay chronological: each session is closed before the next one enters,
   * and every closed session's stay is its exit minus its enter time.
   */
  lemma TickChronological(L: Ledger, ids: seq<VehicleId>, pos: VehicleId -> Position, t: Time)
    requires LedgerChronological(L, t)
    ensures LedgerChronological(TickLedger(L, ids, pos, t), t)
  {
    TickSkipsBusExit(L, ids, pos, t);
    var U := UpdateLive(L, Cars(ids), Buses(ids), pos, t);
    var R := TickLedger(L, ids, pos, t);
    forall c, b | c in R && b in R[c] ensures Chronological(R[c][b], t) {
      var h := HistoryIn(EntryOf(L, c), b);
      assert Chronological(h, t);
      if c in Cars(ids) && b in Buses(ids) {
        StepPairChronological(h, t, InRange(pos(b), pos(c)));
        assert R[c][b] == StepPair(h, t, InRange(pos(b), pos(c)));
      } else if c in ids {
        assert R[c][b] == U[c][b] == L[c][b];
      } else {
        assert U[c] == L[c];
        CloseOpenChronological(h, t);
        assert R[c][b] == CloseOpen(L[c][b], t);
      }
    }
  }

  /** Raising `now` keeps the whole ledger chronological. */
  lemma LedgerChronologicalLater(L: Ledger, now: Time, later: Time)
    requires LedgerChronological(L, now) && now <= later
    ensures LedgerChronological(L, later)
  {
    forall c, b | c in L && b in L[c] ensures Chronological(L[c][b], later) {
      ChronologicalLater(L[c][b], now, later);
    }
  }

  /** The insertion order of each car's bus keys (Python dictionaries keep it). */
  type BusOrder = map<VehicleId, seq<VehicleId>>

  function OrderOf(bo: BusOrder, car: VehicleId): seq<VehicleId>
  {
    if car in bo then bo[car] else []
  }

  /** `carOrder` and `busOrder` list the ledger's keys, each once. */
  predicate Ordered(L: Ledger, carOrder: seq<VehicleId>, busOrder: BusOrder)
  {
    && Distinct(carOrder) && SetOf(carOrder) == L.Keys
    && busOrder.Keys == L.Keys
    && forall c :: c in busOrder ==> Distinct(busOrder[c]) && SetOf(busOrder[c]) == L[c].Keys
  }

  /** The bus key order after phase 1: a live car's new buses go to the end. */
  function UpdateBusOrder(bo: BusOrder, cars: seq<VehicleId>, buses: seq<VehicleId>): (r: BusOrder)
    ensures r.Keys == bo.Keys + SetOf(cars)
  {
    map c | c in bo.Keys + SetOf(cars) ::
      if c in cars then OrderOf(bo, c) + NewKeys(OrderOf(bo, c), buses) else bo[c]
  }

  /** The car key order after a tick: cars seen for the first time go to the end. */
  function TickCarOrder(carOrder: seq<VehicleId>, ids: seq<VehicleId>): seq<VehicleId>
  {
    carOrder + NewKeys(carOrder, Cars(ids))
  }

  function TickBusOrder(busOrder: BusOrder, ids: seq<VehicleId>): BusOrder
  {
    UpdateBusOrder(busOrder, Cars(ids), Buses(ids))
  }

  /** Phase 1 keeps the key orders in step with the ledger. */
  lemma UpdateLiveOrdered(L: Ledger, co: seq<VehicleId>, bo: BusOrder, cars: seq<VehicleId>, buses: seq<VehicleId>,
                          pos: VehicleId -> Position, t: Time)
    requires Ordered(L, co, bo) && Distinct(cars) && Distinct(buses)
    ensures Ordered(UpdateLive(L, cars, buses, pos, t), co + NewKeys(co, cars), UpdateBusOrder(bo, cars, buses))
  {
    var U, co', bo' := UpdateLive(L, cars, buses, pos, t), co + NewKeys(co, cars), UpdateBusOrder(bo, cars, buses);
    NewKeysMembers(co, cars);
    DistinctConcat(co, NewKeys(co, cars));
    forall c | c in bo' ensures Distinct(bo'[c]) && SetOf(bo'[c]) == U[c].Keys {
      if c in cars {
        UpdatedCarOrdered(EntryOf(L, c), OrderOf(bo, c), c, buses, pos, t);
      }
    }
  }

  /** A live car's new bus-key order lists its updated entry's keys, each once. */
  lemma UpdatedCarOrdered(e: Entry, order: seq<VehicleId>, car: VehicleId, buses: seq<VehicleId>,
                          pos: VehicleId -> Position, t: Time)
    requires Distinct(order) && SetOf(order) == e.Keys && Distinct(buses)
    ensures var order' := order + NewKeys(order, buses);
      Distinct(order') && SetOf(order') == UpdateEntry(e, car, buses, pos, t).Keys
  {
    NewKeysMembers(order, buses);
    DistinctConcat(order, NewKeys(order, buses));
  }

  /** The departure phases change no key, so the orders stay in step. */
  lemma TickOrdered(L: Ledger, co: seq<VehicleId>, bo: BusOrder, ids: seq<VehicleId>, pos: VehicleId -> Position, t: Time)
    requires Ordered(L, co, bo) && Distinct(ids)
    ensures Ordered(TickLedger(L, ids, pos, t), TickCarOrder(co, ids), TickBusOrder(bo, ids))
  {
    UpdateLiveOrdered(L, co, bo, Cars(ids), Buses(ids), pos, t);
    TickSkipsBusExit(L, ids, pos, t);
  }

  /** Phase 1 over one more live car is phase 1 so far with that car's entry updated. */
  lemma UpdateLiveSnoc(L: Ledger, cars: seq<VehicleId>, car: VehicleId, buses: seq<VehicleId>,
                       pos: VehicleId -> Position, t: Time)
    requires car !in cars
    ensures EntryOf(UpdateLive(L, cars, buses, pos, t), car) == EntryOf(L, car)
    ensures UpdateLive(L, cars + [car], buses, pos, t)
         == UpdateLive(L, cars, buses, pos, t)[car := UpdateEntry(EntryOf(L, car), car, buses, pos, t)]
  {
    var U, U' := UpdateLive(L, cars, buses, pos, t), UpdateLive(L, cars + [car], buses, pos, t);
    var V := U[car := UpdateEntry(EntryOf(L, car), car, buses, pos, t)];
    assert U'.Keys == V.Keys;
    forall c | c in U' ensures U'[c] == V[c] {
      if c != car { assert (c in cars + [car]) == (c in cars); }
    }
  }

  /** The bus-key order over one more live car. */
  lemma UpdateBusOrderSnoc(bo: BusOrder, cars: seq<VehicleId>, car: VehicleId, buses: seq<VehicleId>)
    requires car !in cars
    ensures OrderOf(UpdateBusOrder(bo, cars, buses), car) == OrderOf(bo, car)
    ensures UpdateBusOrder(bo, cars + [car], buses)
         == UpdateBusOrder(bo, cars, buses)[car := OrderOf(bo, car) + NewKeys(OrderOf(bo, car), buses)]
  {
    var U, U' := UpdateBusOrder(bo, cars, buses), UpdateBusOrder(bo, cars + [car], buses);
    var V := U[car := OrderOf(bo, car) + NewKeys(OrderOf(bo, car), buses)];
    assert U'.Keys == V.Keys;
    forall c | c in U' ensures U'[c] == V[c] {
      if c != car { assert (c in cars + [car]) == (c in cars); }
    }
  }

  /** One car's phase 1 over one more live bus is the same with that pair stepped. */
  lemma UpdateEntrySnoc(e: Entry, car: VehicleId, buses: seq<VehicleId>, bus: VehicleId,
                        pos: VehicleId -> Position, t: Time)
    requires bus !in buses
    ensures HistoryIn(UpdateEntry(e, car, buses, pos, t), bus) == HistoryIn(e, bus)
    ensures UpdateEntry(e, car, buses + [bus], pos, t)
         == UpdateEntry(e, car, buses, pos, t)[bus := StepPair(HistoryIn(e, bus), t, InRange(pos(bus), pos(car)))]
  {
    var U, U' := UpdateEntry(e, car, buses, pos, t), UpdateEntry(e, car, buses + [bus], pos, t);
    var V := U[bus := StepPair(HistoryIn(e, bus), t, InRange(pos(bus), pos(car)))];
    assert U'.Keys == V.Keys;
    forall b | b in U' ensures U'[b] == V[b] {
      if b != bus { assert (b in buses + [bus]) == (b in buses); }
    }
  }

  /**
   * Step `j` of one car's loop over the live buses: the entry and the bus key
   * order so far, extended by bus `buses[j]`.
   */
  lemma UpdateEntryStep(e: Entry, order: seq<VehicleId>, car: VehicleId, buses: seq<VehicleId>, j: nat,
                        pos: VehicleId -> Position, t: Time)
    requires j < |buses| && Distinct(buses) && SetOf(order) == e.Keys
    ensures var cur, bus := UpdateEntry(e, car, buses[..j], pos, t), buses[j];
      && UpdateEntry(e, car, buses[..j + 1], pos, t)
         == cur[bus := StepPair(HistoryIn(cur, bus), t, InRange(pos(bus), pos(car)))]
      && order + NewKeys(order, buses[..j + 1])
         == order + NewKeys(order, buses[..j]) + (if bus in cur then [] else [bus])
  {
    var prefix, bus := buses[..j], buses[j];
    assert buses[..j + 1] == prefix + [bus];
    assert bus !in prefix by {
      forall k | 0 <= k < j ensures prefix[k] != bus {
        assert prefix[k] == buses[k];
      }
    }
    UpdateEntrySnoc(e, car, prefix, bus, pos, t);
    NewKeysSnoc(order, prefix, bus);
    var cur := UpdateEntry(e, car, prefix, pos, t);
    assert bus !in SetOf(prefix);
    assert (bus in cur) == (bus in e) == (bus in order);
  }

  /**
   * Step `i` of the loop over the live cars: the ledger and the key orders so
   * far are in step, and one more car updates its entry and the orders.
   */
  lemma UpdateLiveStep(L: Ledger, co: seq<VehicleId>, bo: BusOrder, cars: seq<VehicleId>, i: nat,
                       buses: seq<VehicleId>, pos: VehicleId -> Position, t: Time)
    requires Ordered(L, co, bo) && Distinct(cars) && Distinct(buses) && i < |cars|
    ensures var U, co', bo', car := UpdateLive(L, cars[..i], buses, pos, t),
                                    co + NewKeys(co, cars[..i]), UpdateBusOrder(bo, cars[..i], buses), cars[i];
      && Ordered(U, co', bo')
      && UpdateLive(L, cars[..i + 1], buses, pos, t) == U[car := UpdateEntry(EntryOf(U, car), car, buses, pos, t)]
      && co + NewKeys(co, cars[..i + 1]) == co' + (if car in U then [] else [car])
      && UpdateBusOrder(bo, cars[..i + 1], buses)
         == bo'[car := OrderOf(bo', car) + NewKeys(OrderOf(bo', car), buses)]
  {
    var prefix, car := cars[..i], cars[i];
    assert cars[..i + 1] == prefix + [car];
    assert car !in prefix;
    assert Distinct(prefix);
    UpdateLiveOrdered(L, co, bo, prefix, buses, pos, t);
    UpdateLiveSnoc(L, prefix, car, buses, pos, t);
    UpdateBusOrderSnoc(bo, prefix, car, buses);
    NewKeysSnoc(co, prefix, car);
    NewKeysMembers(co, prefix);
  }

  /**
   * A tick at time `t` from a state whose key orders are in step and whose
   * histories are chronological up to `t` leaves both true, up to any later
   * clock reading; the orders are in step already after phase 1.
   */
  lemma TickValid(L: Ledger, co: seq<VehicleId>, bo: BusOrder, ids: seq<VehicleId>,
                  pos: VehicleId -> Position, t: Time, later: Time)
    requires Ordered(L, co, bo) && LedgerChronological(L, t) && Distinct(ids) && t <= later
    ensures Ordered(UpdateLive(L, Cars(ids), Buses(ids), pos, t), TickCarOrder(co, ids), TickBusOrder(bo, ids))
    ensures Ordered(TickLedger(L, ids, pos, t), TickCarOrder(co, ids), TickBusOrder(bo, ids))
    ensures LedgerChronological(TickLedger(L, ids, pos, t), later)
  {
    UpdateLiveOrdered(L, co, bo, Cars(ids), Buses(ids), pos, t);
    TickOrdered(L, co, bo, ids, pos, t);
    TickChronological(L, ids, pos, t);
    LedgerChronologicalLater(TickLedger(L, ids, pos, t), t, later);
  }
}
