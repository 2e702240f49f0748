# Robot registry and change publication — a Dafny model

This project models the tracking core of the overhead-camera localization
script `scripts/script5.py`. The script keeps a registry of robots keyed by
fiducial-marker id and decides, for every sighting, what to publish on the
message bus:

- on the first sighting of an id, it creates a record and sends a create message;
- on a later sighting, it sends an update only when the robot has moved at
  least 10 units or turned at least 2 degrees;
- on a refresh request, it sends the whole registry ordered by id.

The model is functional. The registry is an immutable `map<int, Robot>`. A
sighting returns the new registry together with the message it causes, if
any. Coordinates are scaled and then rounded to two decimals. The
perspective transform hands them over as NumPy float64 values, and `round(v, 2)`
on such a value multiplies by 100, rounds half to even, and divides by 100.
The model does the same on exact reals and holds the result as an integer
count of hundredths. The distance test compares squared distances, so no square root
is needed. `Tracker.SquaredTestMatchesEuclidean` proves that this agrees with
the source's `sqrt(...) >= 10` test.

The partner used to judge the publication policy is a subscriber. It keeps its
own copy of the registry and applies each published message to it
(`Mirror`). The main results are:

- a snapshot rebuilds the registry exactly;
- over any sequence of sightings and requests, a subscriber that applies
  every message stays equal to the registry. This includes requests answered
  from inside `update_robot`, where a snapshot can go out before the update it
  already contains;
- suppressed sightings never leave a subscriber behind;
- each new id is announced exactly once.

The distance-or-heading condition at `scripts/script5.py:66-67` does not
parse as written. The parentheses close after the distance test and the
colon is commented out (`#:`), so line 67 starts a new, malformed line and the
file is rejected when it loads. There is therefore no as-written behaviour to
model. The model follows the evident intent: update when the distance is at
least `update_xy_threshold` **or** the heading change is at least
`update_heading_threshold`. A comment at the top of `tracker.dfy` repeats
this.

Requests are served re-entrantly. `on_message` runs only inside
`client.loop()`. Apart from the call in `mqtt_setup` (line 54), that call is
made by `update_robot` itself: between storing an update (lines 70-74) and
publishing it (line 79), at line 76, and after publishing a create message,
at line 91. In `Tracking`, a sighting carries the messages its own loop call
dispatches. They are answered from the registry as it is at that point.

Facts about the code that the model keeps:

- the request topic `v1/localization/update/?` is matched by plain string
  equality at line 108. In MQTT, `?` is an ordinary character, not a wildcard;
- the refresh answer at line 110 is a JSON object keyed by id, not a list.
  `Snapshot` events therefore carry `(id, record)` members in increasing id
  order;
- nothing checks coordinates for NaN or infinity. The model's inputs are
  exact reals, where neither exists;
- `on_message` decodes the payload as UTF-8 at line 106, before line 108 looks
  at the topic. A payload that is not valid UTF-8 raises, and nothing is
  published (`Messages.HandleMessage`, `Utf8`).

Files: `wrappers.dfy` (Option/Result), `rounding.dfy` (`round(v, 2)`),
`utf8.dfy` (strict UTF-8 well-formedness, Table 3-7 of the Unicode Standard,
chapter 3), `records.dfy` (record, registry, topics, events), `mirror.dfy`
(a subscriber's copy), `snapshots.dfy` (sorted snapshot), `tracker.dfy`
(`update_robot`), `messages.dfy` (`on_message`), `tracking.dfy` (whole runs).

## Model

| member | source | states |
|---|---|---|
| Rounding.RoundHalfEven | scripts/script5.py:60-61 | the result lies within one half of the input, and on an exact tie it is even |
| Rounding.RoundHalfEvenIsNearest | scripts/script5.py:60-61 | no integer is closer to the input than the rounded value |
| Rounding.RoundHalfEvenIsUnique | scripts/script5.py:60-61 | any integer within one half of the input, and even on a tie, is the rounded value; so the contract of RoundHalfEven fixes it completely |
| Rounding.RoundHundredths | scripts/script5.py:60-61 | `round(v, 2)` in hundredths is within half a hundredth of `v`, and a value exactly halfway between two hundredths goes to the even one |
| Rounding.RoundHundredthsOfGridValue | scripts/script5.py:60-61 | a value that already has two decimals is left unchanged by rounding |
| Records.TopicOf | scripts/script5.py:22-27 | create messages go to `v1/robot/create` and all others to `v1/localization/update`; no published message uses the request topic |
| Tracker.ObservePose | scripts/script5.py:63-87 | first sighting inserts `Robot(id, x, y, heading, 'R')` and emits one create message carrying it, whatever the pose. A known id is overwritten, with a one-element update list, exactly when the change is significant. The id set grows by the observed id only. Other ids are untouched. A message is sent exactly when the registry changes. Well-keyedness is preserved |
| Tracker.Significant | scripts/script5.py:66-67 | the same pose again is never significant; a turn of at least 2 degrees always is; with the heading unchanged, a move along one axis is significant exactly when it is at least 10 units (1000 hundredths). The full condition is related to the source's `sqrt` test by `Tracker.SquaredTestMatchesEuclidean` |
| Tracker.Observe | scripts/script5.py:58-87 | only the observed id is added or changed, and a new id always gives a create message. A known id is updated exactly when the scaled and rounded pose differs significantly from the stored one. A published message carries the stored record `Robot(id, rounded x, rounded y, heading, 'R')`: as a single record when the id is new, as a one-element list when it is known. Each stored coordinate is within half a hundredth of the scaled input. Nothing is sent exactly when nothing changes |
| Tracker.SquaredTestMatchesEuclidean | scripts/script5.py:66-67 | for the non-negative Euclidean distance `dist`, `dist >= 10 or abs(old heading - heading) >= 2` holds exactly when the squared-distance test says the sighting is significant |
| Tracker.SquareReachesThreshold | scripts/script5.py:66 | for a non-negative length, its square reaches the squared threshold exactly when the length reaches 1000 hundredths |
| Tracker.MoveAlongXUpdatesIffFarEnough | scripts/script5.py:66-67 | with the heading unchanged, a move along x is published exactly when it is at least 10 units (1000 hundredths), so a move of exactly 10 is published (the test is `>=`) |
| Tracker.TurnUpdatesIffFarEnough | scripts/script5.py:67 | with the position unchanged, a turn is published exactly when it is at least 2 degrees, so a turn of exactly 2 is published |
| Tracker.RepeatedSightingIsSilent | scripts/script5.py:58-87 | repeating a sighting that was just published, by create or by update, sends nothing and leaves the registry as it is |
| Tracker.ExampleRun | scripts/script5.py:58-87 | id 5 seen at (100.004, -50.0) heading 10 is created at (100.00, -50.00). The same sighting again is silent. A sighting at (115.0, -50.0) is published as a one-element update storing x = 115.00 |
| Utf8.IsValidUtf8 | scripts/script5.py:106 | the byte sequences `str(payload, 'utf-8')` accepts: a concatenation of well-formed sequences per Table 3-7 of the Unicode Standard. It has no contract of its own; `Utf8.EncodeIsValid` relates it to encoding |
| Utf8.EncodeScalarIsOneSequence | scripts/script5.py:106 | the UTF-8 encoding of any scalar value is read back as exactly one well-formed sequence of its own length |
| Utf8.EncodeIsValid | scripts/script5.py:106 | every text, encoded as UTF-8, is a payload the decoder accepts |
| Messages.HandleMessage | scripts/script5.py:103-110 | a payload that is not UTF-8 fails. Otherwise a reply is sent exactly when the topic equals the request topic. The reply is a snapshot on the localization topic, its members ordered by strictly increasing id, and it rebuilds the registry in any subscriber |
| Messages.EmptyRequestIsAnswered | scripts/script5.py:106-110 | a request with an empty payload is answered |
| Messages.OwnEventsAreNotRequests | scripts/script5.py:22-27 | a message the tracker publishes, if fed back in, never triggers a snapshot |
| Mirror.EntriesToMapLookup | scripts/script5.py:110 | an id-keyed object whose members are in increasing id order holds each member under its id and holds no other id |
| Snapshots.SortedIds | scripts/script5.py:110 | the ids of the registry, each exactly once, in strictly increasing order |
| Snapshots.SnapshotEntries | scripts/script5.py:110 | the snapshot lists every registered robot exactly once, paired with its own id, in strictly increasing id order |
| Snapshots.SnapshotRestoresRegistry | scripts/script5.py:110 | a subscriber that applies a snapshot holds exactly the registry it was taken from, whatever it held before |
| Tracking.Serve | scripts/script5.py:103-110 | a batch of dispatched messages gets exactly one answer per message that is on the request topic and whose payload decodes as UTF-8. Every answer is a snapshot whose members are in increasing id order and which rebuilds the registry it was answered from |
| Tracking.Step | scripts/script5.py:58-110 | one input: a sighting as `update_robot` handles it, or a message served at line 54. It has no contract of its own; `Tracking.StepPublishes`, `Tracking.CreateGoesOutBeforeServedAnswers` and `Tracking.UpdateGoesOutAfterServedAnswers` state what it publishes |
| Tracking.StepPublishes | scripts/script5.py:58-110 | a stand-alone message leaves the registry as it is and is answered by exactly what `Serve` sends for it: one snapshot if it is a decodable request, nothing otherwise. A sighting changes the registry as `update_robot` does. A silent sighting publishes nothing. A sighting that publishes sends its own message plus one answer per decodable request its loop call serves, and every other message it sends is a snapshot: the create message comes first (lines 86, 91), the update message last (lines 76, 79). Every snapshot sent shows the registry after the sighting, with its members in increasing id order |
| Tracking.Run | scripts/script5.py:171-182 | the detection loop: inputs handled in order, each from the registry the previous one left. It has no contract of its own; `Tracking.RunKeepsRecordsUnderTheirIds`, `Tracking.RunOnlyAdds`, `Tracking.SubscriberStaysInSync` and `Tracking.CreatedOncePerNewId` state what a run does |
| Tracking.RunKeepsRecordsUnderTheirIds | scripts/script5.py:54-182 | over any run of the detection loop's sightings and the messages served at line 54, every stored record keeps the id it is stored under (no id is ever dropped: `Tracking.RunOnlyAdds`) |
| Tracking.StepKeepsSubscriberInSync | scripts/script5.py:58-91 | after one input, a subscriber that held the old registry and applies the messages that input caused, in order, holds the new registry. This covers requests answered after a create and requests answered between an update's store and its publish |
| Tracking.SubscriberStaysInSync | scripts/script5.py:54-110 | over any sequence of sightings, with the requests their loop calls serve, and stand-alone requests, a subscriber that starts with the registry and applies every published message ends with the registry |
| Tracking.CreateGoesOutBeforeServedAnswers | scripts/script5.py:84-91 | the first sighting of an id publishes the create message first and then the answers to every request its loop call serves; those answers are made from the registry that already holds the new robot |
| Tracking.UpdateGoesOutAfterServedAnswers | scripts/script5.py:63-79 | a significant sighting of a known id publishes the answers to every request its loop call serves first (line 76), made from the registry that already holds the new pose, and then the one-element update (line 79) |
| Tracking.SnapshotCanPrecedeItsUpdate | scripts/script5.py:70-79 | a significant sighting of a known id whose loop call serves one refresh request publishes the snapshot, already holding the new pose, and then the one-element update for that pose |
| Tracking.RunOnlyAdds | scripts/script5.py:63-84 | after any run, the registry holds exactly the initial ids plus every sighted id, and a robot that was never sighted keeps its record (no deletion) |
| Tracking.CreatedOncePerNewId | scripts/script5.py:82-86 | over any run, no id is announced on the create topic twice, and the announced ids are exactly the sighted ids not initially registered |

## Left out

- `transXY` (`scripts/script5.py:29-40`) is not modelled. It calls OpenCV's perspective-transform routine on 32-bit float matrices, so its output is taken as the opaque world `(x, y)` given to `Tracker.Observe`.
- The MQTT client is not modelled: setup, connect, subscribe, `client.loop()`, QoS and delivery. Every publish is a returned `Event`.
- OpenCV work is not modelled: capture, marker detection, pose estimation, drawing, display and loading the calibration file. This is device I/O and image processing.
- The heading computation from the rotation vector (line 177) is float trigonometry upstream of the core. The heading arrives as an integer, because the caller floors it.
- Float arithmetic is not modelled. The coordinates are exact reals, and the scaling, rounding and distance test use exact arithmetic on hundredths. Binary floats can differ from this in three places. First, the rounding step multiplies by 100 in floating point, which can move a value onto or off a tie: the float nearest 1.115 lies just below 1.115, yet its float product with 100 is exactly 111.5, so NumPy rounds it to 1.12 where exact rounding of that float gives 1.11. Second, the rounded result is stored as the nearest float. Third, `sqrt` is computed in floating point. Each of these can change the outcome right at a threshold boundary. NaN and infinities do not arise.
- `int(id)` (line 59) is not modelled. The id is taken as an integer already, which is what the detector supplies.
- JSON bytes are not modelled: field names, the stringified keys of the snapshot object and `json.dumps` formatting. The model keeps the message structure: a single record, a list of records, or id-keyed members in id order.
- When the MQTT client dispatches a message is not modelled. It depends on network timing, so the messages each loop call dispatches are part of the input. A silent sighting makes no loop call and dispatches nothing. The thread code at lines 144-150 is commented out, so no true concurrency remains.
- The debug `print` calls are not modelled.
- Tracking.Serve: a message whose payload is not UTF-8 gets no answer, and the run continues. In the program, the decode exception propagates out of `client.loop()`. At line 76 that happens after the store and before the publish, so that update is never sent and the script stops. Neither effect is modelled.
