/** The `LiveVehicle` record the map displays, and the reference meaning of the
    extraction: which vehicle payloads yield a live vehicle, what that vehicle is, and
    what a whole feed yields when every entity is tried in turn. */
module LiveVehicles {
  import opened Wrappers
  import opened GtfsRealtime

  /** A vehicle on the map: its route and its coordinate, longitude first. */
  datatype LiveVehicle = LiveVehicle(routeId: string, coordinate: seq<Number>)

  /** A payload is shown exactly when it is present, carries both a position and a
      trip, and the trip names a route. */
  predicate Locatable(vehicle: Option<VehiclePosition>)
  {
    && vehicle.Some?
    && vehicle.value.position.Some?
    && vehicle.value.trip.Some?
    && vehicle.value.trip.value.routeId != ""
  }

  /** Reference reading of one payload. */
  function Reading(vehicle: Option<VehiclePosition>): (r: Option<LiveVehicle>)
  {
    if Locatable(vehicle) then
      var p := vehicle.value.position.value;
      Some(LiveVehicle(vehicle.value.trip.value.routeId, [p.longitude, p.latitude]))
    else
      None
  }

  /** Every live vehicle the model can produce: a named route and a pair of numbers. */
  predicate WellFormed(v: LiveVehicle)
  {
    v.routeId != "" && |v.coordinate| == 2
  }

  /** Reference extraction of a feed: the readings of the entities, in entity order,
      with the entities that yield nothing left out. */
  function Extracted(entities: seq<FeedEntity>): (r: seq<LiveVehicle>)
    ensures |r| <= |entities|
    ensures forall k :: 0 <= k < |r| ==> WellFormed(r[k])
  {
    if entities == [] then []
    else
      match Reading(entities[0].vehicle)
      case Some(v) => [v] + Extracted(entities[1..])
      case None => Extracted(entities[1..])
  }

  /** The positions of the entities that yield a live vehicle, in increasing order. */
  function KeptIndices(entities: seq<FeedEntity>): (r: seq<nat>)
    ensures forall k :: 0 <= k < |r| ==> r[k] < |entities|
    ensures forall k, l :: 0 <= k < l < |r| ==> r[k] < r[l]
    ensures forall i :: 0 <= i < |entities| ==> (i in r <==> Locatable(entities[i].vehicle))
  {
    if entities == [] then []
    else
      var n := |entities| - 1;
      KeptIndices(entities[..n]) + (if Locatable(entities[n].vehicle) then [n] else [])
  }

  /** A minimal payload that carries exactly the route and coordinate of `v`, with no
      vehicle identity and a zero timestamp. */
  function Payload(v: LiveVehicle): VehiclePosition
    requires |v.coordinate| == 2
  {
    VehiclePosition(
      Some(TripDescriptor("", v.routeId)),
      None,
      Some(Position(v.coordinate[1], v.coordinate[0])),
      0)
  }
}
