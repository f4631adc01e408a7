# Live vehicles from a GTFS-Realtime feed

A Dafny model of the vehicle-position core of a small map application. The
application fetches the GTFS-Realtime vehicle-positions feed once on mount. It
decodes the feed into a `FeedMessage` and turns each `FeedEntity.vehicle` payload
into a `LiveVehicle { routeId, coordinate }` with `convertFromProtobuf`. Payloads
with no position, no trip or an empty `trip.routeId` are dropped. The same
converter and extraction loop appear twice: once in the `Application` component
and once in the `useVehicles` hook, whose state the extracted list replaces.

Modules:

- `Wrappers`: `Option` for values that may be `undefined`, `Result` for a call
  that resolves or throws.
- `GtfsRealtime`: the decoded message shape (`FeedMessage`, `FeedEntity`,
  `VehiclePosition`, `TripDescriptor`, `VehicleDescriptor`, `Position`). Every
  sub-message is an `Option`. An absent `route_id` is the empty string.
  Longitude and latitude are an abstract `Number` type, because they are only copied.
- `Http`: a fetch outcome: a rejected request, or a response reduced to `ok`,
  `url`, `statusText` and what reading and decoding its body gives. Also the four
  ways a poll throws, and the thrown error text.
- `LiveVehicles`: the `LiveVehicle` record and the reference meaning of
  extraction. `Locatable` is the validity rule and `Reading` reads one payload.
  `Extracted` is the order-preserving filter-map of a feed, and `KeptIndices`
  gives the positions of the entities that survive.
- `Extraction`: lemmas about `Extracted`. They cover concatenation, skipped
  entities, length, membership and order.
- `Application`: `application.tsx`'s converter, its extraction loop and its fetch.
- `UseVehicles`: `useVehicles.tsx`'s converter copy and a proof that it agrees
  with the other copy. Also its extraction loop and the hook state across a poll.

The code keeps no vehicle identity, history or timestamps. Each successful poll
replaces the list. The fetch runs once, from a mount effect with an empty
dependency list (`useVehicles.tsx:52-54`, `application.tsx:91-93`).

## Model

| member | source | states |
|---|---|---|
| `Application.ConvertFromProtobuf` | src/components/application/application.tsx:30-44 | yields a vehicle exactly when the payload is present, has a position and a trip, and the trip's route id is non-empty; that vehicle has the trip's route id and the coordinate `[longitude, latitude]`, in that order |
| `Application.ConvertRoundTrip` | src/components/application/application.tsx:36-43 | every live vehicle with a non-empty route and a two-number coordinate is recovered from a payload carrying just that route and position |
| `Application.ConvertKeepsRouteAndPosition` | src/components/application/application.tsx:36-43 | a converted vehicle has a non-empty route id and two coordinates, and it determines the payload's position and route id exactly |
| `Application.ConvertIgnoresIdentity` | src/components/application/application.tsx:34-37 | only the position and the trip's route id influence the result; vehicle identity, trip id and timestamp do not |
| `Application.ConvertIsReading` | src/components/application/application.tsx:30-44 | the early-return converter equals the declarative reading `Reading` of the payload |
| `Application.ExtractVehicles` | src/components/application/application.tsx:76-82 | the push loop over the entities produces the order-preserving filter-map `Extracted` of the feed |
| `Application.FetchVehiclePosition` | src/components/application/application.tsx:63-82 | the fetch throws exactly when the request rejects, the response is not OK, the body read rejects or the body does not decode, and throws the error for the first of these; otherwise the result is the feed's extracted vehicles |
| `Http.FetchErrorMessage` | src/components/application/useVehicles.tsx:33-35 | the thrown text is `Error fetching `, then the URL, then `: `, then the status text |
| `Http.PollFailure` | src/components/application/useVehicles.tsx:29-39 | a failed poll's error names the first failing stage: a rejected request, a non-OK status with its message, a rejected body read, or a decode failure |
| `LiveVehicles.Extracted` | src/components/application/application.tsx:76-82 | the extraction is never longer than the feed, and every extracted vehicle has a non-empty route id and a two-number coordinate |
| `LiveVehicles.KeptIndices` | src/components/application/application.tsx:78-81 | the kept positions are strictly increasing and in range; a position is kept exactly when its entity's payload is locatable |
| `Extraction.ExtractedSingle` | src/components/application/application.tsx:79-81 | one entity yields its reading when locatable and nothing otherwise |
| `Extraction.ExtractedAppend` | src/components/application/application.tsx:78-82 | extracting a concatenated feed concatenates the extractions of its parts |
| `Extraction.ExtractedSkipsUnlocatable` | src/components/application/application.tsx:79-81 | an entity that yields nothing contributes nothing, and the entities around it still yield what they would without it |
| `Extraction.ExtractedKeepsAllIffAllLocatable` | src/components/application/application.tsx:78-82 | the extraction has as many vehicles as the feed has entities if and only if every entity is locatable |
| `Extraction.ExtractedMembership` | src/components/application/application.tsx:78-82 | a vehicle is extracted if and only if some entity of the feed reads as it |
| `Extraction.ExtractedFollowsKeptIndices` | src/components/application/application.tsx:76-82 | the k-th extracted vehicle is the reading of the k-th locatable entity, so output order is entity order |
| `UseVehicles.ConvertFromProtobuf` | src/components/application/useVehicles.tsx:9-23 | yields nothing for a missing payload, position, trip or route id; otherwise the trip's route id and `[longitude, latitude]` |
| `UseVehicles.CopiesAgree` | src/components/application/useVehicles.tsx:9-23 | the hook's converter and the component's converter give the same result on every payload |
| `UseVehicles.ExtractVehicles` | src/components/application/useVehicles.tsx:41-47 | the hook's loop produces the order-preserving filter-map `Extracted` of the feed |
| `UseVehicles.Settled` | src/components/application/useVehicles.tsx:28-50 | a poll that throws (rejected request, non-OK response, rejected body read, undecodable body) leaves the hook state as it was; otherwise the state becomes exactly this feed's extracted vehicles |
| `UseVehicles.FetchVehiclePosition` | src/components/application/useVehicles.tsx:28-50 | the hook's fetch, run through its own converter and loop, throws or updates the state exactly as `Settled` says |
| `UseVehicles.Mounted` | src/components/application/useVehicles.tsx:26-54 | the hook starts from the empty list; after the mount poll it holds the extracted vehicles if the poll succeeded, and is still empty if it threw |
| `UseVehicles.NoCarryOver` | src/components/application/useVehicles.tsx:41-49 | after a successful poll every vehicle in the state was read from an entity of that poll's feed; nothing survives from the previous state |
| `UseVehicles.PollForgetsPreviousState` | src/components/application/useVehicles.tsx:41-49 | any two prior states polled with the same successful response end up equal |

## Left out

- Network I/O (`fetch`, `res.arrayBuffer()`): a fetch outcome is an input value. It is either a rejected request, or a response with `ok`, `url`, `statusText` and a body that is unreadable, undecodable or decoded. The reasons carried by a rejected request or body read are not modelled.
- `FeedMessage.decode`: generated protobuf code that is not part of this model. Its outcome is the response's `body`, `Undecodable` when the decoder throws.
- React hooks (`useState`, `useEffect`, `useMemo`, `useRef`) and render scheduling: the hook state is one list value that a poll replaces or keeps.
- The unhandled rejection of the async fetch: the model returns the thrown error as a value and does not model where it goes.
- OpenLayers map, view, layers, `VectorSource`, `Feature` and `Point` construction (`application.tsx:8-23`, `47-59`, `84-88`, `95-97`): presentation only. The `Application` component's fetch is modelled up to the extracted list it hands to `setVehicleSource`.
- `src/main.tsx`: it only mounts the component into the DOM.
- Floating-point semantics of longitude and latitude: they are copied unchanged, so `Number` is abstract.
- Vehicle identity tracking, per-vehicle history, timestamps and interval polling: the code does not implement them.
- GTFS-Realtime fields the code never reads (bearing, speed, stop data and others) are not in the message shape. The few unread fields that are present (entity id, vehicle id, trip id, timestamp) show that the conversion ignores them.
