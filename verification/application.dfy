/** The vehicle view of `application.tsx`: the payload converter, the loop that turns a
    decoded feed into live vehicles, and the fetch that feeds that loop. */
module Application {
  import opened Wrappers
  import opened GtfsRealtime
  import opened LiveVehicles
  import opened Http
  import Extraction

  /** Converts one decoded payload, giving up at the first missing piece: no payload,
      no position or no trip, or a trip whose route id is empty. */
  function ConvertFromProtobuf(vehicle: Option<VehiclePosition>): (r: Option<LiveVehicle>)
    ensures r.Some? <==> Locatable(vehicle)
    ensures r.Some? ==> r.value.routeId == vehicle.value.trip.value.routeId
    ensures r.Some? ==>
              var p := vehicle.value.position.value; r.value.coordinate == [p.longitude, p.latitude]
  {
    match vehicle
    case None => None
    case Some(vp) =>
      if vp.position.None? || vp.trip.None? then None
      else
        var position := vp.position.value;
        var routeId := vp.trip.value.routeId;
        if routeId == "" then None
        else Some(LiveVehicle(routeId, [position.longitude, position.latitude]))
  }

  /** Every live vehicle with a route and a two-number coordinate is what its own
      minimal payload converts to. */
  lemma ConvertRoundTrip(v: LiveVehicle)
    requires WellFormed(v)
    ensures ConvertFromProtobuf(Some(Payload(v))) == Some(v)
  {
    assert [v.coordinate[0], v.coordinate[1]] == v.coordinate;
  }

  /** A converted vehicle keeps all the payload information it was built from: its
      minimal payload has the original position and route id. */
  lemma ConvertKeepsRouteAndPosition(vehicle: Option<VehiclePosition>, v: LiveVehicle)
    requires ConvertFromProtobuf(vehicle) == Some(v)
    ensures WellFormed(v)
    ensures Payload(v).position == vehicle.value.position
    ensures Payload(v).trip.value.routeId == vehicle.value.trip.value.routeId
  {
  }

  /** Nothing but the position and the route id matters: payloads that differ only in
      vehicle identity, trip id or timestamp convert alike. */
  lemma ConvertIgnoresIdentity(a: VehiclePosition, b: VehiclePosition)
    requires a.position == b.position
    requires a.trip.Some? <==> b.trip.Some?
    requires a.trip.Some? ==> a.trip.value.routeId == b.trip.value.routeId
    ensures ConvertFromProtobuf(Some(a)) == ConvertFromProtobuf(Some(b))
  {
  }

  /** The conversion is the reference reading of a payload. */
  lemma ConvertIsReading(vehicle: Option<VehiclePosition>)
    ensures ConvertFromProtobuf(vehicle) == Reading(vehicle)
  {
  }

  /** The loop over the feed's entities: each converted vehicle that is defined is
      pushed, the rest are skipped. */
  method ExtractVehicles(entities: seq<FeedEntity>) returns (vehicles: seq<LiveVehicle>)
    ensures vehicles == Extracted(entities)
  {
    vehicles := [];
    for i := 0 to |entities|
      invariant vehicles == Extracted(entities[..i])
    {
      var v := ConvertFromProtobuf(entities[i].vehicle);
      assert entities[..i + 1] == entities[..i] + [entities[i]];
      Extraction.ExtractedAppend(entities[..i], [entities[i]]);
      Extraction.ExtractedSingle(entities[i]);
      if v.Some? {
        vehicles := vehicles + [v.value];
      }
    }
    assert entities[..|entities|] == entities;
  }

  /** One fetch: a rejected request, a non-OK response (with a message naming the URL
      and status), a rejected body read and an undecodable body each throw; otherwise
      the feed's live vehicles come back. */
  method FetchVehiclePosition(res: Response) returns (r: Result<seq<LiveVehicle>, PollError>)
    ensures r.Err? <==> !Succeeds(res)
    ensures r.Err? ==> r.error == PollFailure(res)
    ensures r.Ok? ==> r.value == Extracted(res.body.message.entity)
  {
    if !Succeeds(res) {
      return Err(PollFailure(res));
    }
    var vehicles := ExtractVehicles(res.body.message.entity);
    return Ok(vehicles);
  }
}
