/**
 * The robot record, the registry that holds one record per marker id, the
 * message-bus topics, and the events the tracker publishes on them
 * (scripts/script5.py, lines 12-27).
 */
module Records {

  /** Provenance tag of an observed (not simulated) robot. */
  const Observed: char := 'R'

  /** Topic on which a subscriber asks for the whole registry. */
  const RequestTopic: string := "v1/localization/update/?"
  /** Topic carrying updates and whole-registry snapshots. */
  const LocalizationTopic: string := "v1/localization/update"
  /** Topic announcing a robot seen for the first time. */
  const CreateTopic: string := "v1/robot/create"

  /**
   * One tracked robot. `x` and `y` are world coordinates in hundredths of a
   * unit (two-decimal resolution); `heading` is in whole degrees.
   */
  datatype Robot = Robot(id: int, x: int, y: int, heading: int, reality: char)

  /** The registry: marker id to the last published record for that id. */
  type Registry = map<int, Robot>

  /** Each record sits under its own id and carries the observed tag. */
  predicate WellKeyed(reg: Registry) {
    forall k :: k in reg ==> reg[k].id == k && reg[k].reality == Observed
  }

  /** One `id: record` member of a snapshot object. */
  type Entry = (int, Robot)

  /** A message the tracker publishes. */
  datatype Event =
    | Created(robot: Robot)         // a single record object
    | Updated(batch: seq<Robot>)    // a list of records
    | Snapshot(entries: seq<Entry>) // the registry as an id-keyed object

  /** The topic a message goes out on; never the request topic. */
  function TopicOf(e: Event): (t: string)
    ensures t != RequestTopic
    ensures e.Created? <==> t == CreateTopic
    ensures !e.Created? ==> t == LocalizationTopic
  {
    if e.Created? then CreateTopic else LocalizationTopic
  }
}
