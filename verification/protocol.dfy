/** The rocket protocol between the controlling client's copy of a vehicle
    and the server's copy: a message that one copy appends to its outbox is
    delivered by calling the matching handler of the other copy, once and
    in order, as the engine's reliable calls are. */
module Protocol {
  import opened Int32
  import opened RocketPool
  import opened FGPlayer

  /** The controlling client fires; the server's copy of its vehicle
      validates the request (running its own half of the multicast); the
      reply is delivered to the client. A refused shot leaves the client's pool
      as it was before the prediction, but not its predicted count; an
      accepted shot is counted once on the client, not twice. */
  method FireRoundTrip(client: Player, server: Player, start: Vec3, facing: Rotator,
                       correctedFacing: Rotator)
    requires client != server
    requires client.role == AutonomousProxy && server.role == Authority && !server.locallyControlled
    requires client.Valid() && server.Valid()
    requires client.fireCooldownElapsed <= 0.0 && (client.numRockets > 0 || client.unlimitedRockets) ==>
               NoEmptySlots(client.rocketInstances)
    modifies client, server
    ensures client.Valid() && server.Valid()
    ensures !old(client.FireGuardsPass()) ==> unchanged(client) && unchanged(server)
    ensures old(client.FireGuardsPass()) &&
            !AcceptsFire(old(server.serverNumRockets), server.unlimitedRockets) ==>
              client.rocketInstances == old(client.rocketInstances) &&
              client.numRockets == Wrap32(old(client.numRockets) - 1) &&
              server.serverNumRockets == old(server.serverNumRockets) &&
              server.numRockets == old(server.numRockets) &&
              server.rocketInstances == old(server.rocketInstances)
    ensures old(client.FireGuardsPass()) &&
            AcceptsFire(old(server.serverNumRockets), server.unlimitedRockets) ==>
              var i := FirstFree(old(client.rocketInstances)).index;
              client.rocketInstances == old(client.rocketInstances)[i := Rocket(InFlight)] &&
              client.numRockets == Wrap32(old(client.numRockets) - 1) &&
              server.serverNumRockets == Wrap32(old(server.serverNumRockets) - 1) &&
              (Resolves(old(server.rocketInstances), Ref(i)) ==>
                 server.numRockets == Wrap32(old(server.numRockets) - 1) &&
                 server.rocketInstances == old(server.rocketInstances)[i := Rocket(InFlight)])
    ensures !server.unlimitedRockets && old(server.serverNumRockets) >= 0 ==>
              server.serverNumRockets >= 0
    ensures client.rocketInstances == old(client.rocketInstances) ||
            ActiveCount(client.rocketInstances) <= client.maxActiveRockets
  {
    var sent := |client.outbox|;
    client.FireRocket(start, facing);
    if |client.outbox| > sent {
      var request := client.outbox[|client.outbox| - 1];
      server.Server_FireRocket(request.rocket, request.start, correctedFacing);
      var reply := server.outbox[|server.outbox| - 1];
      if reply.Reclaim? {
        client.Client_RemoveRocket(reply.rocket);
      } else {
        client.Multicast_FireRocket(reply.rocket, reply.start, reply.facing);
      }
    }
  }

  /** A reclaim delivered twice leaves the same pool as delivered once. */
  method ReclaimTwice(client: Player, rocket: RocketRef)
    requires Resolves(client.rocketInstances, rocket)
    modifies client`rocketInstances
    ensures client.rocketInstances == old(client.rocketInstances)[rocket.index := Rocket(Free)]
  {
    client.Client_RemoveRocket(rocket);
    ghost var once := client.rocketInstances;
    client.Client_RemoveRocket(rocket);
    assert client.rocketInstances == once;
  }

  /** A client's copy overlaps a pickup. The controlling client notifies
      the server; the server's copy of its vehicle credits the pickup and
      acknowledges; the client credits the acknowledged amount. A simulated
      proxy sends nothing, so nothing changes. */
  method PickupRoundTrip(client: Player, server: Player, pickupRockets: int)
    requires client != server
    requires client.role != Authority && server.role == Authority && !server.locallyControlled
    requires client.Valid() && server.Valid() && IsInt32(pickupRockets)
    modifies client`outbox, client`numRockets, client`serverNumRockets
    modifies server`outbox, server`numRockets, server`serverNumRockets
    ensures client.Valid() && server.Valid()
    ensures client.locallyControlled <==> client.role == AutonomousProxy
    ensures client.locallyControlled ==>
              server.serverNumRockets == Wrap32(old(server.serverNumRockets) + pickupRockets) &&
              client.numRockets == Wrap32(old(client.numRockets) + pickupRockets)
    ensures !client.locallyControlled ==>
              server.serverNumRockets == old(server.serverNumRockets) &&
              client.numRockets == old(client.numRockets)
    ensures server.numRockets == old(server.numRockets)
    ensures client.serverNumRockets == old(client.serverNumRockets)
    ensures client.rocketInstances == old(client.rocketInstances)
    ensures server.rocketInstances == old(server.rocketInstances)
  {
    var sent := |client.outbox|;
    client.OnPickup(pickupRockets);
    if |client.outbox| > sent {
      var notify := client.outbox[|client.outbox| - 1];
      server.Server_OnPickup(notify.amount);
      var ack := server.outbox[|server.outbox| - 1];
      client.Client_OnPickupRockets(ack.amount);
    }
  }
}
