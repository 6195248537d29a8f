/** Vehicle identifiers, the bus/car partition of a tick, and key insertion order. */
module Vehicles {

  type VehicleId = string

  /** A bus is a vehicle whose id starts with "bus" (run.py, `startswith("bus")`). */
  predicate IsBusId(id: VehicleId)
  {
    |id| >= 3 && id[..3] == "bus"
  }

  predicate Distinct(s: seq<VehicleId>)
  {
    forall i, j :: 0 <= i < j < |s| ==> s[i] != s[j]
  }

  function SetOf(s: seq<VehicleId>): set<VehicleId>
  {
    set x | x in s
  }

  lemma DistinctConcat(a: seq<VehicleId>, b: seq<VehicleId>)
    requires Distinct(a) && Distinct(b)
    requires forall x :: x in a ==> x !in b
    ensures Distinct(a + b)
  {
    var ab := a + b;
    forall i, j | 0 <= i < j < |ab| ensures ab[i] != ab[j] {
      if j < |a| {
        assert ab[i] == a[i] && ab[j] == a[j];
      } else if i >= |a| {
        assert ab[i] == b[i - |a|] && ab[j] == b[j - |a|];
      } else {
        assert ab[i] == a[i] && ab[j] == b[j - |a|];
        assert a[i] in a && a[i] !in b && b[j - |a|] in b;
      }
    }
  }

  /**
   * The ids of `ids` that are buses (`bus` true) or cars (`bus` false), in
   * their order in `ids`.
   */
  function Partition(ids: seq<VehicleId>, bus: bool): (r: seq<VehicleId>)
    ensures forall x :: x in r <==> x in ids && IsBusId(x) == bus
    ensures Distinct(ids) ==> Distinct(r)
  {
    if ids == [] then []
    else
      var rest := Partition(ids[1..], bus);
      if IsBusId(ids[0]) == bus then
        assert Distinct(ids) ==> ids[0] !in ids[1..] && Distinct(ids[1..]) by {
          if Distinct(ids) {
            forall k | 0 <= k < |ids| - 1 ensures ids[1..][k] != ids[0] {
              assert ids[1..][k] == ids[k + 1];
            }
          }
        }
        assert Distinct(ids) ==> Distinct([ids[0]] + rest) by {
          if Distinct(ids) { DistinctConcat([ids[0]], rest); }
        }
        [ids[0]] + rest
      else
        assert Distinct(ids) ==> Distinct(ids[1..]);
        rest
  }

  /** The live buses of a tick (run.py, `bus_ids`). */
  function Buses(ids: seq<VehicleId>): seq<VehicleId>
  {
    Partition(ids, true)
  }

  /** The live cars of a tick (run.py, `car_ids`). */
  function Cars(ids: seq<VehicleId>): seq<VehicleId>
  {
    Partition(ids, false)
  }

  /** Every live vehicle is either a bus or a car, and is counted once. */
  lemma {:induction false} PartitionSizes(ids: seq<VehicleId>)
    ensures |Buses(ids)| + |Cars(ids)| == |ids|
  {
    if ids != [] {
      PartitionSizes(ids[1..]);
    }
  }

  /**
   * The keys that inserting the keys `xs` one after the other appends to a
   * dictionary whose keys are `order`, in insertion order. This models the
   * dictionary only when `xs` is distinct: a key repeated in `xs` would be
   * appended twice. Every caller passes distinct keys.
   */
  function NewKeys(order: seq<VehicleId>, xs: seq<VehicleId>): seq<VehicleId>
  {
    if xs == [] then []
    else
      var init, x := xs[..|xs| - 1], xs[|xs| - 1];
      NewKeys(order, init) + (if x in order then [] else [x])
  }

  /** The appended keys are exactly the inserted keys that were not there yet, each once. */
  lemma {:induction false} NewKeysMembers(order: seq<VehicleId>, xs: seq<VehicleId>)
    ensures forall x :: x in NewKeys(order, xs) <==> x in xs && x !in order
    ensures Distinct(xs) ==> Distinct(NewKeys(order, xs))
  {
    if xs != [] {
      var init, x := xs[..|xs| - 1], xs[|xs| - 1];
      assert xs == init + [x];
      NewKeysMembers(order, init);
      assert Distinct(xs) ==> Distinct(init) && x !in init;
      if x !in order && Distinct(xs) {
        DistinctConcat(NewKeys(order, init), [x]);
      }
    }
  }

  /** Inserting one more key appends it exactly when it is new. */
  lemma NewKeysSnoc(order: seq<VehicleId>, xs: seq<VehicleId>, x: VehicleId)
    ensures NewKeys(order, xs + [x]) == NewKeys(order, xs) + (if x in order then [] else [x])
  {
    assert (xs + [x])[..|xs|] == xs;
  }
}
