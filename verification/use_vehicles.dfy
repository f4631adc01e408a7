/** The `useVehicles` hook: its own copy of the payload converter, the same extraction
    loop, and the hook state that one poll replaces wholesale or leaves alone. */
module UseVehicles {
  import opened Wrappers
  import opened GtfsRealtime
  import opened LiveVehicles
  import opened Http
  import Application
  import Extraction

  /** The hook's copy of the converter: no payload, no position or no trip, or an
      empty route id gives nothing; otherwise the route and `[longitude, latitude]`. */
  function ConvertFromProtobuf(vehicle: Option<VehiclePosition>): (r: Option<LiveVehicle>)
    ensures r.Some? <==> Locatable(vehicle)
    ensures r.Some? ==> r.value.routeId == vehicle.value.trip.value.routeId
    ensures r.Some? ==>
              var p := vehicle.value.position.value; r.value.coordinate == [p.longitude, p.latitude]
  {
    if vehicle.None? then None
    else
      var position := vehicle.value.position;
      var trip := vehicle.value.trip;
      if position.None? || trip.None? then None
      else if trip.value.routeId == "" then None
      else Some(LiveVehicle(trip.value.routeId, [position.value.longitude, position.value.latitude]))
  }

  /** The two copies of the converter agree on every payload. */
  lemma CopiesAgree(vehicle: Option<VehiclePosition>)
    ensures ConvertFromProtobuf(vehicle) == Application.ConvertFromProtobuf(vehicle)
  {
  }

  /** The hook's extraction loop, built on its own converter. */
  method ExtractVehicles(entities: seq<FeedEntity>) returns (vehicles: seq<LiveVehicle>)
    ensures vehicles == Extracted(entities)
  {
    vehicles := [];
    for i := 0 to |entities|
      invariant vehicles == Extracted(entities[..i])
    {
      var v := ConvertFromProtobuf(entities[i].vehicle);
      assert entities[..i + 1] == entities[..i] + [entities[i]];
      Extraction.ExtractedAppend(entities[..i], [entities[i]]);
      Extraction.ExtractedSingle(entities[i]);
      if v.Some? {
        vehicles := vehicles + [v.value];
      }
    }
    assert entities[..|entities|] == entities;
  }

  /** The hook state before any poll has completed. */
  const InitialVehicles: seq<LiveVehicle> := []

  /** What one poll leaves behind: the hook's vehicle list and what was thrown, if
      anything. */
  datatype Poll = Poll(vehicles: seq<LiveVehicle>, thrown: Option<PollError>)

  /** The hook state one poll settles to: a poll that throws (rejected request,
      non-OK response, rejected body read, undecodable body) leaves the state as it
      was, and a poll that gets a feed replaces the state with that feed's live
      vehicles. */
  function Settled(vehicles: seq<LiveVehicle>, res: Response): (r: Poll)
    ensures r.thrown.Some? <==> !Succeeds(res)
    ensures r.thrown.Some? ==> r.thrown.value == PollFailure(res) && r.vehicles == vehicles
    ensures r.thrown.None? ==> r.vehicles == Extracted(res.body.message.entity)
  {
    if !Succeeds(res) then Poll(vehicles, Some(PollFailure(res)))
    else Poll(Extracted(res.body.message.entity), None)
  }

  /** The hook's fetch, run through its own converter and loop: it throws before the
      state update, or hands the freshly extracted list to the state setter. */
  method FetchVehiclePosition(vehicles: seq<LiveVehicle>, res: Response)
    returns (next: seq<LiveVehicle>, thrown: Option<PollError>)
    ensures Poll(next, thrown) == Settled(vehicles, res)
  {
    if !Succeeds(res) {
      return vehicles, Some(PollFailure(res));
    }
    next := ExtractVehicles(res.body.message.entity);
    thrown := None;
  }

  /** The hook's value once the mount effect's single poll has settled. */
  function Mounted(res: Response): (vehicles: seq<LiveVehicle>)
    ensures !Succeeds(res) ==> vehicles == []
    ensures Succeeds(res) ==> vehicles == Extracted(res.body.message.entity)
  {
    Settled(InitialVehicles, res).vehicles
  }

  /** A successful poll does not accumulate: every vehicle in the new state is read
      from some entity of this poll's feed, whatever the state held before. */
  lemma NoCarryOver(before: seq<LiveVehicle>, res: Response, v: LiveVehicle)
    requires Succeeds(res)
    requires v in Settled(before, res).vehicles
    ensures exists i :: 0 <= i < |res.body.message.entity|
              && Reading(res.body.message.entity[i].vehicle) == Some(v)
  {
    Extraction.ExtractedMembership(res.body.message.entity, v);
  }

  /** Two hook states polled with the same successful response end up equal. */
  lemma PollForgetsPreviousState(a: seq<LiveVehicle>, b: seq<LiveVehicle>, res: Response)
    requires Succeeds(res)
    ensures Settled(a, res).vehicles == Settled(b, res).vehicles
  {
  }
}
