# Rocket ammunition ledger and rocket pool of a networked vehicle

This project models, in Dafny, the weapon half of `AFGPlayer`
(`Source/FGNet/Player/FGPlayer.cpp`): the vehicle's fixed pool of eight
pre-spawned rockets, the two ammunition counters (the client-predicted
`NumRockets` and the server's `ServerNumRockets`), the fire cooldown, and the
remote calls that fire a rocket, validate the shot on the server, reclaim a
refused rocket, confirm an accepted one and credit a pickup.

Layout:

- `int32.dfy` (module `Int32`): the counters are `int32`; `Wrap32` gives the
  value a mathematical result is stored as (two's complement wrap-around).
- `rocket_pool.dfy` (module `RocketPool`): a pool entry is a null pointer
  (`Empty`) or a rocket tagged `Free` or `InFlight`; `ActiveCount` and
  `FirstFree` specify the two pool queries, with lemmas about how the count
  moves when one rocket is started or freed.
- `player.dfy` (module `FGPlayer`): class `Player` is one peer's copy of the
  vehicle, with its `Role` (`SimulatedProxy`, `AutonomousProxy`,
  `Authority`). Each remote call a copy makes is appended, as a `Message`, to
  its `outbox`; delivering it is an explicit call of the receiving copy's
  handler. A call whose target is the calling machine runs at once, as in
  the engine: a server call made on the server, the server's own half of a
  multicast (the message is also sent to the clients), and a client call
  made on the server for the vehicle that the server's own player (the
  listen-server host) controls. The role fixes local control: the
  autonomous proxy is locally controlled, a simulated proxy is not.
- `protocol.dfy` (module `Protocol`): the client/server round trips of a shot
  and of a pickup, composed from the handlers.

A rocket pointer is a `RocketRef`: null, or the index of the rocket in the
pool. The pool is replicated, so the same index names the same rocket on
every peer. A reference that does not name a rocket on the receiving peer (out
of range, or an entry that is still null there) arrives as null.

Two behaviours of the code are kept as written. A copy with the simulated-proxy role whose guards pass restarts its
cooldown and does nothing else (`FireRocket`). A refused shot frees the
rocket again but does not give the predicted rocket back to `NumRockets`
(`Client_RemoveRocket`).

## Model

| member | source | states |
|---|---|---|
| `Int32.Wrap32` | Source/FGNet/Player/FGPlayer.cpp:312 | the stored `int32` value lies in the 32-bit range, differs from the exact result by a multiple of 2^32, and equals it when no overflow happens |
| `RocketPool.ActiveCount` | Source/FGNet/Player/FGPlayer.cpp:213-223 | the number of rockets in flight is at most the pool size, and zero exactly when no entry is in flight |
| `RocketPool.ActiveCountIsCardinality` | Source/FGNet/Player/FGPlayer.cpp:213-223 | the count equals the size of the set of indices whose rocket is in flight |
| `RocketPool.ActiveCountUpdate` | Source/FGNet/Player/FGPlayer.cpp:216-220 | replacing one entry changes the count by exactly what the old and the new entry contribute |
| `RocketPool.StartMovingCount` | Source/FGNet/Player/FGPlayer.cpp:257 | starting a free rocket raises the count of rockets in flight by exactly one |
| `RocketPool.MakeFreeCount` | Source/FGNet/Player/FGPlayer.cpp:317-320 | freeing a rocket lowers the count by one if it was in flight and leaves it unchanged if it was free |
| `RocketPool.FirstFreeFrom` | Source/FGNet/Player/FGPlayer.cpp:290-299 | the result, if any, is a free rocket at or after the start index with no free rocket before it; null exactly when no rocket from there on is free |
| `RocketPool.FirstFree` | Source/FGNet/Player/FGPlayer.cpp:288-300 | the first free rocket in pool order, null entries skipped; null exactly when no rocket of the pool is free |
| `FGPlayer.AcceptsFire` | Source/FGNet/Player/FGPlayer.cpp:304 | with a non-negative server count the server accepts exactly when ammunition is unlimited or at least one rocket is left; with limited ammunition an accepted shot never takes the count below zero |
| `FGPlayer.Player.Tick` | Source/FGNet/Player/FGPlayer.cpp:58 | the cooldown goes down by the frame time and nothing else changes |
| `FGPlayer.Player.SpawnRockets` | Source/FGNet/Player/FGPlayer.cpp:263-280 | on the authority with a rocket class set, exactly eight free rockets are appended after the existing entries; otherwise the pool is unchanged; the count in flight never changes |
| `FGPlayer.Player.GetNumActiveRockets` | Source/FGNet/Player/FGPlayer.cpp:213-223 | the loop returns the number of rockets that are not free (`ActiveCount`, the size of the set of in-flight indices); every entry is dereferenced, so none may be null |
| `FGPlayer.Player.GetFreeRocket` | Source/FGNet/Player/FGPlayer.cpp:288-300 | the loop returns the first free rocket in pool order (`FirstFree`), a reference that names a rocket of the pool, and null exactly when no rocket is free |
| `FGPlayer.Player.FireRocket` | Source/FGNet/Player/FGPlayer.cpp:230-261 | when any of the four guards fails nothing changes; otherwise the cooldown restarts; the autonomous proxy takes exactly one rocket off `NumRockets`, puts the first free rocket in flight and requests that same rocket from the server; the authority validates at once: accepted, it takes one rocket off both counters, puts the rocket in flight and multicasts the confirmation; refused, both counters and the pool stay as they were and a reclaim is sent unless the host itself fired; a simulated proxy does nothing more; the count in flight never exceeds `MaxActiveRockets` when the pool changes |
| `FGPlayer.Player.Server_FireRocket` | Source/FGNet/Player/FGPlayer.cpp:302-315 | runs on the server's copy; a refused request leaves both counters and reclaims the requested rocket (at once on the host's own vehicle, by a message to the owning client otherwise); an accepted one takes exactly one rocket off the server count, multicasts a confirmation of that rocket and runs that confirmation on the server's copy; with limited ammunition a non-negative count stays non-negative, and a zero count always yields a reclaim |
| `FGPlayer.Player.Client_RemoveRocket` | Source/FGNet/Player/FGPlayer.cpp:317-320 | the named rocket is free afterwards and nothing else changes; reclaiming a free rocket changes nothing; the count in flight drops by one exactly when the rocket was in flight |
| `FGPlayer.Player.Multicast_FireRocket` | Source/FGNet/Player/FGPlayer.cpp:322-337 | a reference that names no rocket changes nothing; the autonomous proxy only corrects the rocket's aim, so its count and pool are unchanged; any other copy takes one rocket off `NumRockets` and puts that rocket in flight |
| `FGPlayer.Player.OnPickup` | Source/FGNet/Player/FGPlayer.cpp:129-135 | only a locally controlled copy acts: a client's copy notifies the server with the pickup's amount; the host's own vehicle runs the server call at once, so both its counters grow by the amount; any other copy changes nothing |
| `FGPlayer.Player.Client_OnPickupRockets` | Source/FGNet/Player/FGPlayer.cpp:137-141 | `NumRockets` grows by exactly the acknowledged amount (modulo 2^32) and nothing else changes |
| `FGPlayer.Player.Server_OnPickup` | Source/FGNet/Player/FGPlayer.cpp:143-147 | the server count grows by exactly the pickup's amount (modulo 2^32); the same amount reaches the picking client: credited at once on the host's own vehicle, by one acknowledgement otherwise |
| `Protocol.FireRoundTrip` | Source/FGNet/Player/FGPlayer.cpp:302-337 | the controlling client fires, the server's copy of its vehicle validates, the reply is delivered: a refused shot restores the client's pool exactly as before the prediction while the server count and the server's copy are untouched; an accepted shot is counted once (not twice) on the client, once on the server's ledger, and started on the server's copy; the server count stays non-negative |
| `Protocol.ReclaimTwice` | Source/FGNet/Player/FGPlayer.cpp:317-320 | delivering the same reclaim twice leaves the pool that one delivery leaves |
| `Protocol.PickupRoundTrip` | Source/FGNet/Player/FGPlayer.cpp:129-147 | a pickup by the controlling client raises the server count and the client's count by the same amount; a simulated proxy changes neither; no pool and no other counter changes |

## Left out

- `FGPlayer.Player.Server_FireRocket`: the server's half-weight blend of the requested yaw toward its own forward yaw is floating-point angle math; the blended rotation is a parameter (`correctedFacing`) and the model says only that it is what the confirmation carries.
- `FGPlayer.Player.FireRocket`: on the authority the model passes the actor's rotation as the blended facing, since the blend of the actor's yaw with its own forward yaw has a zero delta; the start location (`GetRocketStartLocation`) and rotation are parameters.
- `FGPlayer.Player.Multicast_FireRocket`: `StartMoving` and `ApplyCorrection` are modelled only through the rocket's free/in-flight tag; the rocket's motion, direction and position are not modelled. `AFGRocket` is not part of this model.
- `FGPlayer.Player.SpawnRockets`: spawning is taken to always succeed and a new rocket to start free; the world, spawn parameters and a failed spawn (a null entry on the server) are not modelled.
- Signed overflow of the `int32` counters is undefined in C++; the model takes the usual two's complement wrap-around.
- Rockets are values in the pool sequence, so two entries aliasing one rocket actor are not modelled.
- The cooldown and the frame time are `float` in the source and `real` here; rounding is not modelled.
- The movement part of `Tick`, the movement calls (`Server_SendLocation`, `Multicast_SendLocation`, `Server_SendYaw`) and the replication registration: float and vector arithmetic and engine plumbing with no ledger logic.
- The constructor, `BeginPlay`, input binding and the `Handle_*` setters, the debug widget code: engine, UI and input plumbing. `Handle_FirePressed` only calls `FireRocket`.
- `GetPing` (a passthrough to the player state) and `Cheat_IncreaseRockets` (an empty body).
- `BP_OnNumRocketsChanged`, the Blueprint event raised after a pickup: it has no effect on the ledger here.
- The pickup actor itself: the model carries only its rocket amount.
- `FGPlayer.Player.GetNumActiveRockets`, `FGPlayer.Player.FireRocket` and `FGPlayer.Player.Client_RemoveRocket` require the rockets they dereference to be non-null (`NoEmptySlots`, `Resolves`): the source dereferences them without a check (lines 218 and 319) and would crash on a null entry, which the model does not represent. Because `FireRocket` counts the rockets in flight before it searches for a free one, the null skip in `GetFreeRocket` (lines 292-293) is never reached from `FireRocket`.
- Delivery to simulated proxies is not composed in `Protocol`; their handling of a confirmation is `Multicast_FireRocket` with a role other than the autonomous proxy.
- Timestamp rejection of stale movement reports and a periodic ammunition resync do not exist in the code and are not modelled.
- `Source/FGNet/Player/FGPlayer.h` declares no rocket members; the rocket fields' meaning is taken from their use in the `.cpp`, and their initial values are the constructor's parameters.
