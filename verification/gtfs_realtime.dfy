/** The part of the GTFS-Realtime message shape that the vehicle view reads, as the
    generated decoder hands it over: every sub-message is optional, and an absent
    string field decodes to the empty string. Fields the view never reads are kept
    where they show what the extraction ignores (entity id, vehicle identity,
    timestamp). */
module GtfsRealtime {
  import opened Wrappers

  /** A decoded floating-point field. Longitude and latitude are only ever copied,
      never computed with, so their representation is left abstract. */
  type Number(==)

  datatype Position = Position(latitude: Number, longitude: Number)

  datatype TripDescriptor = TripDescriptor(tripId: string, routeId: string)

  datatype VehicleDescriptor = VehicleDescriptor(id: string)

  datatype VehiclePosition = VehiclePosition(
    trip: Option<TripDescriptor>,
    vehicle: Option<VehicleDescriptor>,
    position: Option<Position>,
    timestamp: nat
  )

  datatype FeedEntity = FeedEntity(id: string, vehicle: Option<VehiclePosition>)

  datatype FeedMessage = FeedMessage(entity: seq<FeedEntity>)
}
