/** The rocket pool of one vehicle: the ordered list of pre-spawned rocket
    actors (`RocketInstances`), each of which is either free or in flight.
    An entry can also be a null pointer, for instance a rocket whose actor
    has not been replicated to this peer yet. */
module RocketPool {

  /** The state a rocket actor reports through `IsFree`. `StartMoving` sets
      `InFlight`, `MakeFree` sets `Free`. */
  datatype Tag = Free | InFlight

  /** One entry of the pool: a null pointer or a rocket actor. */
  datatype Slot = Empty | Rocket(tag: Tag)

  /** A rocket pointer as passed to a function or carried by a network
      message: null, or the rocket at an index of the (replicated) pool. */
  datatype RocketRef = Null | Ref(index: nat)

  /** Number of rockets the vehicle spawns into its pool. */
  const ROCKET_CACHE: nat := 8

  /** The entry is a rocket that is not free. */
  predicate IsActive(slot: Slot) {
    slot.Rocket? && slot.tag == InFlight
  }

  /** Every entry is a rocket actor (no null pointer). */
  predicate NoEmptySlots(s: seq<Slot>) {
    forall i :: 0 <= i < |s| ==> s[i].Rocket?
  }

  /** The reference names a rocket actor of the pool `s`. */
  predicate Resolves(s: seq<Slot>, r: RocketRef) {
    r.Ref? && r.index < |s| && s[r.index].Rocket?
  }

  /** Number of rockets of the pool that are in flight. */
  function ActiveCount(s: seq<Slot>): (n: nat)
    ensures n <= |s|
    ensures n == 0 <==> forall i :: 0 <= i < |s| ==> !IsActive(s[i])
  {
    if s == [] then 0
    else ActiveCount(s[..|s| - 1]) + (if IsActive(s[|s| - 1]) then 1 else 0)
  }

  /** The indices of the rockets in flight: an independent description of
      what `ActiveCount` counts. */
  ghost function ActiveIndices(s: seq<Slot>): set<nat> {
    set i: nat | i < |s| && IsActive(s[i])
  }

  lemma {:induction false} ActiveCountIsCardinality(s: seq<Slot>)
    ensures ActiveCount(s) == |ActiveIndices(s)|
  {
    if s != [] {
      var t := s[..|s| - 1];
      ActiveCountIsCardinality(t);
      assert forall i :: 0 <= i < |t| ==> t[i] == s[i];
      if IsActive(s[|s| - 1]) {
        assert ActiveIndices(s) == ActiveIndices(t) + {|s| - 1};
      } else {
        assert ActiveIndices(s) == ActiveIndices(t);
      }
    }
  }

  /** Replacing one entry changes the active count by exactly what the old
      and the new entry contribute. */
  lemma {:induction false} ActiveCountUpdate(s: seq<Slot>, i: nat, x: Slot)
    requires i < |s|
    ensures ActiveCount(s[i := x]) ==
            ActiveCount(s) - (if IsActive(s[i]) then 1 else 0) + (if IsActive(x) then 1 else 0)
  {
    var last := |s| - 1;
    var t := s[i := x];
    if i == last {
      assert t[..last] == s[..last];
    } else {
      ActiveCountUpdate(s[..last], i, x);
      assert t[..last] == s[..last][i := x];
    }
  }

  /** Starting one free rocket puts exactly one more rocket in flight. */
  lemma StartMovingCount(s: seq<Slot>, i: nat)
    requires i < |s| && s[i] == Rocket(Free)
    ensures ActiveCount(s[i := Rocket(InFlight)]) == ActiveCount(s) + 1
  {
    ActiveCountUpdate(s, i, Rocket(InFlight));
  }

  /** Freeing a rocket takes it out of flight if it was in flight, and
      changes nothing otherwise. */
  lemma MakeFreeCount(s: seq<Slot>, i: nat)
    requires i < |s| && s[i].Rocket?
    ensures ActiveCount(s[i := Rocket(Free)]) ==
            if s[i].tag == InFlight then ActiveCount(s) - 1 else ActiveCount(s)
  {
    ActiveCountUpdate(s, i, Rocket(Free));
  }

  /** The first free rocket at or after index `k`, skipping null entries. */
  function FirstFreeFrom(s: seq<Slot>, k: nat): (r: RocketRef)
    requires k <= |s|
    ensures r.Ref? ==> k <= r.index < |s| && s[r.index] == Rocket(Free)
    ensures r.Ref? ==> forall j :: k <= j < r.index ==> s[j] != Rocket(Free)
    ensures r.Null? <==> forall j :: k <= j < |s| ==> s[j] != Rocket(Free)
    decreases |s| - k
  {
    if k == |s| then Null
    else if s[k] == Rocket(Free) then Ref(k)
    else FirstFreeFrom(s, k + 1)
  }

  /** The first free rocket of the pool in pool order, or null when no
      rocket of the pool is free. */
  function FirstFree(s: seq<Slot>): (r: RocketRef)
    ensures r.Ref? ==> r.index < |s| && s[r.index] == Rocket(Free)
    ensures r.Ref? ==> forall j :: 0 <= j < r.index ==> s[j] != Rocket(Free)
    ensures r.Null? <==> forall j :: 0 <= j < |s| ==> s[j] != Rocket(Free)
  {
    FirstFreeFrom(s, 0)
  }
}
