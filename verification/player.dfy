/** The rocket ammunition ledger and rocket pool of one networked vehicle
    (`AFGPlayer`), as held by one peer. Every peer of a session has its own
    copy of each vehicle: the server's copy has the `Authority` role, the
    copy on the controlling client is the `AutonomousProxy`, the copies on
    the other clients are `SimulatedProxy`.

    A remote procedure call does not run anything here: the sending copy
    appends the call, as a `Message`, to its `outbox`, and delivering it is
    an explicit call of the receiving copy's handler method (see the
    `Protocol` module). A call whose target is the calling machine runs at
    once, as the engine does: a server call made on the server, a multicast
    on the server's own copy (it is also sent to the clients), and a client
    call made on the server for the vehicle of the server's own player. */
module FGPlayer {
  import opened Int32
  import opened RocketPool

  /** The network role of a copy of the vehicle, in the engine's order
      (`SimulatedProxy < AutonomousProxy < Authority`). */
  datatype Role = SimulatedProxy | AutonomousProxy | Authority

  /** A world position and a rotation: opaque payloads of the fire
      messages. */
  datatype Vec3 = Vec3(x: real, y: real, z: real)
  datatype Rotator = Rotator(pitch: real, yaw: real, roll: real)

  /** The remote calls of the rocket protocol. */
  datatype Message =
    | FireRequest(rocket: RocketRef, start: Vec3, facing: Rotator)  // Server_FireRocket
    | Reclaim(rocket: RocketRef)                                    // Client_RemoveRocket
    | Confirm(rocket: RocketRef, start: Vec3, facing: Rotator)      // Multicast_FireRocket
    | PickupNotify(amount: int)                                     // Server_OnPickup
    | PickupAck(amount: int)                                        // Client_OnPickupRockets

  /** The server's verdict on a fire request: it refuses exactly when the
      `int32` difference `ServerNumRockets - 1` is negative and ammunition
      is limited. */
  function AcceptsFire(serverNumRockets: int, unlimited: bool): (accepted: bool)
    requires IsInt32(serverNumRockets)
    ensures serverNumRockets >= 0 ==> (accepted <==> unlimited || serverNumRockets >= 1)
    ensures accepted && !unlimited && serverNumRockets >= 0 ==>
              Wrap32(serverNumRockets - 1) >= 0
  {
    !(Wrap32(serverNumRockets - 1) < 0 && !unlimited)
  }

  class Player {
    const role: Role
    /** `IsLocallyControlled()`: this copy is driven by this peer's input. */
    const locallyControlled: bool
    /** `RocketClass != nullptr`. */
    const hasRocketClass: bool
    /** `MaxActiveRockets`: how many rockets may be in flight at once. */
    const maxActiveRockets: int
    /** `bUnlimitedRockets`. */
    const unlimitedRockets: bool
    /** `PlayerSettings->FireCooldown`. */
    const fireCooldown: real

    /** `NumRockets`: the client-predicted ammunition count. */
    var numRockets: int
    /** `ServerNumRockets`: the authoritative count, changed only by server calls. */
    var serverNumRockets: int
    /** `FireCooldownElapsed`: time left before the next shot. */
    var fireCooldownElapsed: real
    /** `RocketInstances`. */
    var rocketInstances: seq<Slot>
    /** Remote calls this copy has made, oldest first. */
    var outbox: seq<Message>

    ghost predicate Valid()
      reads this
    {
      IsInt32(numRockets) && IsInt32(serverNumRockets) && IsInt32(maxActiveRockets) &&
      (role == AutonomousProxy ==> locallyControlled) &&
      (role == SimulatedProxy ==> !locallyControlled)
    }

    /** The four guards of `FireRocket`, all passing. */
    predicate FireGuardsPass()
      reads this
    {
      fireCooldownElapsed <= 0.0 &&
      (numRockets > 0 || unlimitedRockets) &&
      ActiveCount(rocketInstances) < maxActiveRockets &&
      FirstFree(rocketInstances).Ref?
    }

    /** A copy with the given configuration and initial ledger; `pool` is
        what `RocketInstances` holds before `SpawnRockets` (empty on the
        server, the replicated array on a client). */
    constructor (role: Role, locallyControlled: bool, hasRocketClass: bool,
                 maxActiveRockets: int, unlimitedRockets: bool, fireCooldown: real,
                 numRockets: int, serverNumRockets: int, pool: seq<Slot>)
      requires IsInt32(maxActiveRockets) && IsInt32(numRockets) && IsInt32(serverNumRockets)
      requires role == AutonomousProxy ==> locallyControlled
      requires role == SimulatedProxy ==> !locallyControlled
      ensures Valid()
      ensures this.role == role && this.locallyControlled == locallyControlled
      ensures this.hasRocketClass == hasRocketClass
      ensures this.maxActiveRockets == maxActiveRockets && this.unlimitedRockets == unlimitedRockets
      ensures this.fireCooldown == fireCooldown
      ensures this.numRockets == numRockets && this.serverNumRockets == serverNumRockets
      ensures fireCooldownElapsed == 0.0 && rocketInstances == pool && outbox == []
    {
      this.role := role;
      this.locallyControlled := locallyControlled;
      this.hasRocketClass := hasRocketClass;
      this.maxActiveRockets := maxActiveRockets;
      this.unlimitedRockets := unlimitedRockets;
      this.fireCooldown := fireCooldown;
      this.numRockets := numRockets;
      this.serverNumRockets := serverNumRockets;
      fireCooldownElapsed := 0.0;
      rocketInstances := pool;
      outbox := [];
    }

    /** The rocket part of `Tick`: the cooldown runs down by the frame time. */
    method Tick(deltaTime: real)
      modifies this`fireCooldownElapsed
      ensures fireCooldownElapsed == old(fireCooldownElapsed) - deltaTime
    {
      fireCooldownElapsed := fireCooldownElapsed - deltaTime;
    }

    /** Fills the pool: the server, when a rocket class is set, spawns
        `ROCKET_CACHE` rockets, all free, after the existing entries. */
    method SpawnRockets()
      modifies this`rocketInstances
      ensures role == Authority && hasRocketClass ==>
                |rocketInstances| == |old(rocketInstances)| + ROCKET_CACHE &&
                rocketInstances[..|old(rocketInstances)|] == old(rocketInstances) &&
                forall i :: |old(rocketInstances)| <= i < |rocketInstances| ==>
                  rocketInstances[i] == Rocket(Free)
      ensures !(role == Authority && hasRocketClass) ==> rocketInstances == old(rocketInstances)
      ensures ActiveCount(rocketInstances) == ActiveCount(old(rocketInstances))
    {
      if role == Authority && hasRocketClass {
        var index := 0;
        while index < ROCKET_CACHE
          invariant 0 <= index <= ROCKET_CACHE
          invariant |rocketInstances| == |old(rocketInstances)| + index
          invariant rocketInstances[..|old(rocketInstances)|] == old(rocketInstances)
          invariant forall i :: |old(rocketInstances)| <= i < |rocketInstances| ==>
                      rocketInstances[i] == Rocket(Free)
          invariant ActiveCount(rocketInstances) == ActiveCount(old(rocketInstances))
        {
          var before := rocketInstances;
          rocketInstances := rocketInstances + [Rocket(Free)];
          assert rocketInstances[..|before|] == before;
          index := index + 1;
        }
      }
    }

    /** Counts the rockets of the pool that are not free. Every entry is
        dereferenced, so none may be null. */
    method GetNumActiveRockets() returns (numActive: nat)
      requires NoEmptySlots(rocketInstances)
      ensures numActive == ActiveCount(rocketInstances)
      ensures numActive == |ActiveIndices(rocketInstances)|
    {
      numActive := 0;
      var k := 0;
      while k < |rocketInstances|
        invariant 0 <= k <= |rocketInstances|
        invariant numActive == ActiveCount(rocketInstances[..k])
      {
        assert rocketInstances[..k + 1][..k] == rocketInstances[..k];
        if rocketInstances[k].tag != Free {
          numActive := numActive + 1;
        }
        k := k + 1;
      }
      assert rocketInstances[..k] == rocketInstances;
      ActiveCountIsCardinality(rocketInstances);
    }

    /** The first free rocket in pool order, skipping null entries; null
        when there is none. */
    method GetFreeRocket() returns (rocket: RocketRef)
      ensures rocket == FirstFree(rocketInstances)
      ensures rocket.Ref? ==> Resolves(rocketInstances, rocket)
      ensures rocket.Null? <==> forall j :: 0 <= j < |rocketInstances| ==> rocketInstances[j] != Rocket(Free)
    {
      var k := 0;
      while k < |rocketInstances|
        invariant 0 <= k <= |rocketInstances|
        invariant FirstFreeFrom(rocketInstances, k) == FirstFree(rocketInstances)
      {
        if rocketInstances[k] == Empty {
          k := k + 1;
          continue;
        }
        if rocketInstances[k].tag == Free {
          return Ref(k);
        }
        k := k + 1;
      }
      return Null;
    }

    /** Fire input. When a guard fails nothing happens. Otherwise the
        cooldown restarts and: the server validates the shot at once; the
        controlling client predicts it (one rocket fewer, the rocket in
        flight) and asks the server; a simulated proxy does nothing more.
        `start` and `facing` are the actor's rocket start location and
        rotation. */
    method FireRocket(start: Vec3, facing: Rotator)
      requires Valid()
      requires fireCooldownElapsed <= 0.0 && (numRockets > 0 || unlimitedRockets) ==>
                 NoEmptySlots(rocketInstances)
      modifies this
      ensures Valid()
      ensures !old(FireGuardsPass()) ==> unchanged(this)
      ensures old(FireGuardsPass()) ==> fireCooldownElapsed == fireCooldown
      ensures old(FireGuardsPass()) && role == AutonomousProxy ==>
                var i := FirstFree(old(rocketInstances)).index;
                numRockets == Wrap32(old(numRockets) - 1) &&
                (old(numRockets) > 0 ==> numRockets == old(numRockets) - 1) &&
                rocketInstances == old(rocketInstances)[i := Rocket(InFlight)] &&
                serverNumRockets == old(serverNumRockets) &&
                outbox == old(outbox) + [FireRequest(Ref(i), start, facing)]
      ensures old(FireGuardsPass()) && role == Authority ==>
                var i := FirstFree(old(rocketInstances)).index;
                if AcceptsFire(old(serverNumRockets), unlimitedRockets) then
                  serverNumRockets == Wrap32(old(serverNumRockets) - 1) &&
                  numRockets == Wrap32(old(numRockets) - 1) &&
                  rocketInstances == old(rocketInstances)[i := Rocket(InFlight)] &&
                  outbox == old(outbox) + [Confirm(Ref(i), start, facing)]
                else
                  serverNumRockets == old(serverNumRockets) &&
                  numRockets == old(numRockets) &&
                  rocketInstances == old(rocketInstances) &&
                  outbox == if locallyControlled then old(outbox) else old(outbox) + [Reclaim(Ref(i))]
      ensures old(FireGuardsPass()) && role == SimulatedProxy ==>
                numRockets == old(numRockets) && serverNumRockets == old(serverNumRockets) &&
                rocketInstances == old(rocketInstances) && outbox == old(outbox)
      ensures rocketInstances == old(rocketInstances) ||
              ActiveCount(rocketInstances) <= maxActiveRockets
    {
      if fireCooldownElapsed > 0.0 {
        return;
      }
      if numRockets <= 0 && !unlimitedRockets {
        return;
      }
      var numActive := GetNumActiveRockets();
      if numActive >= maxActiveRockets {
        return;
      }
      var newRocket := GetFreeRocket();
      if newRocket.Null? {
        return;
      }
      fireCooldownElapsed := fireCooldown;
      StartMovingCount(rocketInstances, newRocket.index);
      if role == AutonomousProxy || role == Authority {
        if role == Authority {
          Server_FireRocket(newRocket, start, facing);
        } else {
          numRockets := Wrap32(numRockets - 1);
          rocketInstances := rocketInstances[newRocket.index := Rocket(InFlight)];
          outbox := outbox + [FireRequest(newRocket, start, facing)];
        }
      }
    }

    /** Server call: validates a fire request against the server count.
        Refused, it reclaims the rocket on the requesting client and leaves
        the count alone; accepted, it takes one rocket off the count and
        multicasts the confirmation. Runs on the server's copy only.
        A multicast runs on the server's copy at once and is sent to the
        clients; a client call runs at once when the server's own player
        controls this vehicle, and is sent to the owning client otherwise.
        `correctedFacing` is the requested facing after the server's
        lag-compensating blend. */
    method Server_FireRocket(newRocket: RocketRef, rocketStartLocation: Vec3, correctedFacing: Rotator)
      requires Valid() && role == Authority
      requires locallyControlled && !AcceptsFire(serverNumRockets, unlimitedRockets) ==>
                 Resolves(rocketInstances, newRocket)
      modifies this`serverNumRockets, this`outbox, this`numRockets, this`rocketInstances
      ensures Valid()
      ensures AcceptsFire(old(serverNumRockets), unlimitedRockets) ==>
                serverNumRockets == Wrap32(old(serverNumRockets) - 1) &&
                outbox == old(outbox) + [Confirm(newRocket, rocketStartLocation, correctedFacing)] &&
                if Resolves(old(rocketInstances), newRocket) then
                  numRockets == Wrap32(old(numRockets) - 1) &&
                  rocketInstances == old(rocketInstances)[newRocket.index := Rocket(InFlight)]
                else
                  numRockets == old(numRockets) && rocketInstances == old(rocketInstances)
      ensures !AcceptsFire(old(serverNumRockets), unlimitedRockets) ==>
                serverNumRockets == old(serverNumRockets) &&
                numRockets == old(numRockets) &&
                if locallyControlled then
                  outbox == old(outbox) &&
                  rocketInstances == old(rocketInstances)[newRocket.index := Rocket(Free)]
                else
                  outbox == old(outbox) + [Reclaim(newRocket)] &&
                  rocketInstances == old(rocketInstances)
      ensures !unlimitedRockets && old(serverNumRockets) >= 0 ==> serverNumRockets >= 0
      ensures !unlimitedRockets && old(serverNumRockets) == 0 && !locallyControlled ==>
                outbox == old(outbox) + [Reclaim(newRocket)]
      ensures old(serverNumRockets) >= 1 ==> serverNumRockets == old(serverNumRockets) - 1
    {
      if Wrap32(serverNumRockets - 1) < 0 && !unlimitedRockets {
        if locallyControlled {
          Client_RemoveRocket(newRocket);
        } else {
          outbox := outbox + [Reclaim(newRocket)];
        }
      } else {
        serverNumRockets := Wrap32(serverNumRockets - 1);
        outbox := outbox + [Confirm(newRocket, rocketStartLocation, correctedFacing)];
        Multicast_FireRocket(newRocket, rocketStartLocation, correctedFacing);
      }
    }

    /** Client call: the server refused a predicted shot, so the rocket is
        free again. The reference is dereferenced without a check. Freeing a
        free rocket changes nothing, so a second delivery is harmless. */
    method Client_RemoveRocket(rocketToRemove: RocketRef)
      requires Resolves(rocketInstances, rocketToRemove)
      modifies this`rocketInstances
      ensures rocketInstances == old(rocketInstances)[rocketToRemove.index := Rocket(Free)]
      ensures old(rocketInstances[rocketToRemove.index]) == Rocket(Free) ==>
                rocketInstances == old(rocketInstances)
      ensures ActiveCount(rocketInstances) ==
                if old(rocketInstances[rocketToRemove.index]) == Rocket(InFlight)
                then ActiveCount(old(rocketInstances)) - 1
                else ActiveCount(old(rocketInstances))
    {
      MakeFreeCount(rocketInstances, rocketToRemove.index);
      rocketInstances := rocketInstances[rocketToRemove.index := Rocket(Free)];
    }

    /** Multicast: the server accepted a shot. A null rocket is ignored. The
        controlling client already predicted the shot and only corrects the
        rocket's aim; every other copy counts the rocket as spent and starts
        it. */
    method Multicast_FireRocket(newRocket: RocketRef, rocketStartLocation: Vec3, rocketFacing: Rotator)
      requires Valid()
      modifies this`numRockets, this`rocketInstances
      ensures Valid()
      ensures !Resolves(old(rocketInstances), newRocket) || role == AutonomousProxy ==>
                numRockets == old(numRockets) && rocketInstances == old(rocketInstances)
      ensures Resolves(old(rocketInstances), newRocket) && role != AutonomousProxy ==>
                numRockets == Wrap32(old(numRockets) - 1) &&
                rocketInstances == old(rocketInstances)[newRocket.index := Rocket(InFlight)]
    {
      if !Resolves(rocketInstances, newRocket) {
        return;
      }
      if role == AutonomousProxy {
        // ApplyCorrection re-aims the rocket; its pool state is unchanged.
      } else {
        numRockets := Wrap32(numRockets - 1);
        rocketInstances := rocketInstances[newRocket.index := Rocket(InFlight)];
      }
    }

    /** The vehicle overlapped a pickup worth `pickupRockets`; only the
        controlling copy tells the server. On the server's own player the
        server call runs at once. */
    method OnPickup(pickupRockets: int)
      requires Valid() && IsInt32(pickupRockets)
      modifies this`outbox, this`serverNumRockets, this`numRockets
      ensures Valid()
      ensures locallyControlled && role == Authority ==>
                serverNumRockets == Wrap32(old(serverNumRockets) + pickupRockets) &&
                numRockets == Wrap32(old(numRockets) + pickupRockets) &&
                outbox == old(outbox)
      ensures locallyControlled && role != Authority ==>
                outbox == old(outbox) + [PickupNotify(pickupRockets)] &&
                serverNumRockets == old(serverNumRockets) && numRockets == old(numRockets)
      ensures !locallyControlled ==>
                outbox == old(outbox) &&
                serverNumRockets == old(serverNumRockets) && numRockets == old(numRockets)
    {
      if locallyControlled {
        if role == Authority {
          Server_OnPickup(pickupRockets);
        } else {
          outbox := outbox + [PickupNotify(pickupRockets)];
        }
      }
    }

    /** Client call: the server granted `pickedUpRockets` more rockets. */
    method Client_OnPickupRockets(pickedUpRockets: int)
      requires Valid() && IsInt32(pickedUpRockets)
      modifies this`numRockets
      ensures Valid()
      ensures numRockets == Wrap32(old(numRockets) + pickedUpRockets)
      ensures IsInt32(old(numRockets) + pickedUpRockets) ==>
                numRockets == old(numRockets) + pickedUpRockets
    {
      numRockets := Wrap32(numRockets + pickedUpRockets);
    }

    /** Server call: credits the pickup to the server count and gives the
        same amount to the client that picked it up: at once when the
        server's own player controls this vehicle, by an acknowledgement
        otherwise. Runs on the server's copy only. */
    method Server_OnPickup(pickupRockets: int)
      requires Valid() && role == Authority && IsInt32(pickupRockets)
      modifies this`serverNumRockets, this`outbox, this`numRockets
      ensures Valid()
      ensures serverNumRockets == Wrap32(old(serverNumRockets) + pickupRockets)
      ensures IsInt32(old(serverNumRockets) + pickupRockets) ==>
                serverNumRockets == old(serverNumRockets) + pickupRockets
      ensures locallyControlled ==>
                numRockets == Wrap32(old(numRockets) + pickupRockets) && outbox == old(outbox)
      ensures !locallyControlled ==>
                numRockets == old(numRockets) && outbox == old(outbox) + [PickupAck(pickupRockets)]
    {
      serverNumRockets := Wrap32(serverNumRockets + pickupRockets);
      if locallyControlled {
        Client_OnPickupRockets(pickupRockets);
      } else {
        outbox := outbox + [PickupAck(pickupRockets)];
      }
    }
  }
}
