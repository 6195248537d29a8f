/**
 * The export of run.py after the simulation: one output row per session,
 * cars in the order they were first seen, each car's buses in the same
 * order, each pair's sessions oldest first. A missing exit or stay time is
 * written as "N/A".
 */
module Export {
  import opened Sessions
  import opened Vehicles
  import opened Ledgers

  /** A time column of the output: a time, or "N/A". */
  datatype Cell = At(t: Time) | NotAvailable

  /** One output row: car id, bus id, enter, exit and stay time. */
  datatype Row = Row(car: VehicleId, bus: VehicleId, enter: Time, exit: Cell, stay: Cell)

  function CellOf(o: Option<Time>): Cell
  {
    match o
    case None => NotAvailable
    case Some(t) => At(t)
  }

  /** The row of one session of the pair (`car`, `bus`). */
  function RowOf(car: VehicleId, bus: VehicleId, s: Session): Row
  {
    Row(car, bus, s.enter, CellOf(s.exit), CellOf(s.stay))
  }

  /** The rows of one pair's sessions, in order. */
  function PairRows(car: VehicleId, bus: VehicleId, h: History): (r: seq<Row>)
    ensures |r| == |h|
    ensures forall i :: 0 <= i < |h| ==> r[i] == RowOf(car, bus, h[i])
  {
    if h == [] then [] else [RowOf(car, bus, h[0])] + PairRows(car, bus, h[1..])
  }

  /** The rows of one car's entry, bus by bus in `order`. */
  function EntryRows(car: VehicleId, e: Entry, order: seq<VehicleId>): seq<Row>
  {
    if order == [] then [] else PairRows(car, order[0], HistoryIn(e, order[0])) + EntryRows(car, e, order[1..])
  }

  /** All rows of the ledger, car by car in `carOrder`. */
  function ExportRows(L: Ledger, carOrder: seq<VehicleId>, busOrder: BusOrder): seq<Row>
  {
    if carOrder == [] then []
    else
      var c := carOrder[0];
      EntryRows(c, EntryOf(L, c), OrderOf(busOrder, c)) + ExportRows(L, carOrder[1..], busOrder)
  }

  /** The rows of the pair (`car`, `bus`), in the order they appear in `rows`. */
  function Select(rows: seq<Row>, car: VehicleId, bus: VehicleId): seq<Row>
  {
    if rows == [] then []
    else (if rows[0].car == car && rows[0].bus == bus then [rows[0]] else []) + Select(rows[1..], car, bus)
  }

  /**
   * A row has "N/A" in its exit and stay columns exactly when its session is
   * open; a closed session's row shows its exit time and, as the stay, the
   * exit time minus the enter time.
   */
  lemma RowOfCells(car: VehicleId, bus: VehicleId, s: Session, now: Time)
    requires SessionOk(s, now)
    ensures var r := RowOf(car, bus, s);
      && r.car == car && r.bus == bus && r.enter == s.enter
      && (r.exit == NotAvailable <==> s.IsOpen())
      && (r.stay == NotAvailable <==> s.IsOpen())
      && (!s.IsOpen() ==> r.exit == At(s.exit.value) && r.stay == At(s.exit.value - s.enter))
  {
  }

  /** Selecting a pair distributes over concatenation. */
  lemma {:induction false} SelectConcat(a: seq<Row>, b: seq<Row>, car: VehicleId, bus: VehicleId)
    ensures Select(a + b, car, bus) == Select(a, car, bus) + Select(b, car, bus)
  {
    if a != [] {
      assert (a + b)[0] == a[0] && (a + b)[1..] == a[1..] + b;
      SelectConcat(a[1..], b, car, bus);
    } else {
      assert a + b == b;
    }
  }

  /** A pair's own rows select to themselves; another pair's to nothing. */
  lemma {:induction false} SelectPairRows(car: VehicleId, bus: VehicleId, h: History, c: VehicleId, b: VehicleId)
    ensures Select(PairRows(car, bus, h), c, b) == if car == c && bus == b then PairRows(car, bus, h) else []
  {
    if h != [] {
      var r := PairRows(car, bus, h);
      assert r == [RowOf(car, bus, h[0])] + PairRows(car, bus, h[1..]);
      SelectConcat([RowOf(car, bus, h[0])], PairRows(car, bus, h[1..]), c, b);
      SelectPairRows(car, bus, h[1..], c, b);
    }
  }

  /** Within one car's rows, a pair's rows are its history's, when its bus is listed once. */
  lemma {:induction false} SelectEntryRows(car: VehicleId, e: Entry, order: seq<VehicleId>, c: VehicleId, b: VehicleId)
    requires Distinct(order)
    ensures Select(EntryRows(car, e, order), c, b)
         == if car == c && b in order then PairRows(car, b, HistoryIn(e, b)) else []
  {
    if order != [] {
      var bus, rest := order[0], order[1..];
      assert Distinct(rest) && bus !in rest by {
        forall k | 0 <= k < |rest| ensures rest[k] != bus {
          assert rest[k] == order[k + 1];
        }
      }
      SelectConcat(PairRows(car, bus, HistoryIn(e, bus)), EntryRows(car, e, rest), c, b);
      SelectPairRows(car, bus, HistoryIn(e, bus), c, b);
      SelectEntryRows(car, e, rest, c, b);
      assert (b in order) == (b == bus || b in rest);
    }
  }

  /** Within all rows, a pair's rows are its history's, when every car is listed once. */
  lemma {:induction false} SelectExportRows(L: Ledger, carOrder: seq<VehicleId>, busOrder: BusOrder, c: VehicleId, b: VehicleId)
    requires Distinct(carOrder) && forall x :: x in busOrder ==> Distinct(busOrder[x])
    ensures Select(ExportRows(L, carOrder, busOrder), c, b)
         == if c in carOrder && b in OrderOf(busOrder, c) then PairRows(c, b, HistoryIn(EntryOf(L, c), b)) else []
  {
    if carOrder != [] {
      var car, rest := carOrder[0], carOrder[1..];
      assert Distinct(rest) && car !in rest by {
        forall k | 0 <= k < |rest| ensures rest[k] != car {
          assert rest[k] == carOrder[k + 1];
        }
      }
      SelectConcat(EntryRows(car, EntryOf(L, car), OrderOf(busOrder, car)), ExportRows(L, rest, busOrder), c, b);
      SelectEntryRows(car, EntryOf(L, car), OrderOf(busOrder, car), c, b);
      SelectExportRows(L, rest, busOrder, c, b);
      assert (c in carOrder) == (c == car || c in rest);
    }
  }

  /**
   * The export holds, for every pair of the ledger, exactly one row per
   * session in the pair's history, in the history's order, and no row for a
   * pair the ledger does not have.
   */
  lemma ExportPairRows(L: Ledger, carOrder: seq<VehicleId>, busOrder: BusOrder, c: VehicleId, b: VehicleId)
    requires Ordered(L, carOrder, busOrder)
    ensures Select(ExportRows(L, carOrder, busOrder), c, b)
         == if c in L && b in L[c] then PairRows(c, b, L[c][b]) else []
  {
    SelectExportRows(L, carOrder, busOrder, c, b);
    if c in L {
      assert c in carOrder && (b in OrderOf(busOrder, c) <==> b in L[c]);
    } else {
      assert c !in carOrder;
    }
  }

  /** Every exported row belongs to a pair of the ledger, when the orders list its keys. */
  lemma {:induction false} ExportRowsSound(L: Ledger, carOrder: seq<VehicleId>, busOrder: BusOrder, r: Row)
    requires r in ExportRows(L, carOrder, busOrder)
    ensures r.car in carOrder && r.bus in OrderOf(busOrder, r.car)
  {
    if carOrder != [] {
      var car := carOrder[0];
      if r in EntryRows(car, EntryOf(L, car), OrderOf(busOrder, car)) {
        EntryRowsSound(car, EntryOf(L, car), OrderOf(busOrder, car), r);
      } else {
        ExportRowsSound(L, carOrder[1..], busOrder, r);
      }
    }
  }

  lemma {:induction false} EntryRowsSound(car: VehicleId, e: Entry, order: seq<VehicleId>, r: Row)
    requires r in EntryRows(car, e, order)
    ensures r.car == car && r.bus in order
  {
    if order != [] {
      var bus := order[0];
      if r !in PairRows(car, bus, HistoryIn(e, bus)) {
        EntryRowsSound(car, e, order[1..], r);
      }
    }
  }

  /** Exporting the cars of `a` and then those of `b` is exporting the cars of `a + b`. */
  lemma {:induction false} ExportRowsConcat(L: Ledger, a: seq<VehicleId>, b: seq<VehicleId>, busOrder: BusOrder)
    ensures ExportRows(L, a + b, busOrder) == ExportRows(L, a, busOrder) + ExportRows(L, b, busOrder)
  {
    if a != [] {
      assert (a + b)[0] == a[0] && (a + b)[1..] == a[1..] + b;
      ExportRowsConcat(L, a[1..], b, busOrder);
    } else {
      assert a + b == b;
    }
  }

  lemma {:induction false} EntryRowsConcat(car: VehicleId, e: Entry, a: seq<VehicleId>, b: seq<VehicleId>)
    ensures EntryRows(car, e, a + b) == EntryRows(car, e, a) + EntryRows(car, e, b)
  {
    if a != [] {
      assert (a + b)[0] == a[0] && (a + b)[1..] == a[1..] + b;
      EntryRowsConcat(car, e, a[1..], b);
    } else {
      assert a + b == b;
    }
  }

  /** The innermost export loop of run.py: one row per session of the pair, in order. */
  method WritePairRows(car: VehicleId, bus: VehicleId, records: History) returns (rows: seq<Row>)
    ensures rows == PairRows(car, bus, records)
  {
    rows := [];
    for k := 0 to |records|
      invariant rows == PairRows(car, bus, records[..k])
    {
      rows := rows + [RowOf(car, bus, records[k])];
      assert rows == PairRows(car, bus, records[..k + 1]);
    }
    assert records[..|records|] == records;
  }

  /** The export loop over one car's buses, in insertion order. */
  method WriteEntryRows(car: VehicleId, entry: Entry, order: seq<VehicleId>) returns (rows: seq<Row>)
    ensures rows == EntryRows(car, entry, order)
  {
    rows := [];
    for j := 0 to |order|
      invariant rows == EntryRows(car, entry, order[..j])
    {
      var bus := order[j];
      var pairRows := WritePairRows(car, bus, HistoryIn(entry, bus));
      EntryRowsConcat(car, entry, order[..j], [bus]);
      assert order[..j + 1] == order[..j] + [bus];
      rows := rows + pairRows;
    }
    assert order[..|order|] == order;
  }

  /**
   * The export loops of run.py: for every car, every bus of the car, every
   * session of the pair, write the session's row.
   */
  method WriteRows(L: Ledger, carOrder: seq<VehicleId>, busOrder: BusOrder) returns (rows: seq<Row>)
    ensures rows == ExportRows(L, carOrder, busOrder)
  {
    rows := [];
    for i := 0 to |carOrder|
      invariant rows == ExportRows(L, carOrder[..i], busOrder)
    {
      var car := carOrder[i];
      var carRows := WriteEntryRows(car, EntryOf(L, car), OrderOf(busOrder, car));
      ExportRowsConcat(L, carOrder[..i], [car], busOrder);
      assert carOrder[..i + 1] == carOrder[..i] + [car];
      rows := rows + carRows;
    }
    assert carOrder[..|carOrder|] == carOrder;
  }
}
