/**
 * The inbound-message handler `on_message` (scripts/script5.py, lines
 * 103-110): the payload is first decoded as UTF-8, then a message on the
 * request topic is answered with the whole registry on the localization
 * topic. The handler never changes the registry.
 */
module Messages {
  import opened Wrappers
  import opened Records
  import Mirror
  import Snapshots
  import Utf8

  datatype MessageError =
    // `str(payload, 'utf-8')` raises before the topic is looked at
    | PayloadNotUtf8

  /** The message published in answer to one inbound message, if any. */
  function HandleMessage(reg: Registry, topic: string, payload: seq<Utf8.byte>): (r: Result<Option<Event>, MessageError>)
    ensures r.Failure? <==> !Utf8.IsValidUtf8(payload)
    ensures r.Success? ==> (r.value.Some? <==> topic == RequestTopic)
    ensures r.Success? && r.value.Some? ==>
              && r.value.value.Snapshot?
              && TopicOf(r.value.value) == LocalizationTopic
              && Mirror.IdsIncreasing(r.value.value.entries)
              && forall view :: Mirror.Apply(view, r.value.value) == reg
  {
    if !Utf8.IsValidUtf8(payload) then Failure(PayloadNotUtf8)
    else if topic == RequestTopic then
      var e := Snapshot(Snapshots.SnapshotEntries(reg));
      forall view ensures Mirror.Apply(view, e) == reg {
        Snapshots.SnapshotRestoresRegistry(reg, view);
      }
      Success(Some(e))
    else Success(None)
  }

  /** A request with an empty payload, the usual form, is always answered. */
  lemma EmptyRequestIsAnswered(reg: Registry)
    ensures HandleMessage(reg, RequestTopic, []).Success?
    ensures HandleMessage(reg, RequestTopic, []).value.Some?
  {
  }

  /** Messages the tracker itself publishes never trigger a snapshot. */
  lemma OwnEventsAreNotRequests(reg: Registry, e: Event, payload: seq<Utf8.byte>)
    ensures HandleMessage(reg, TopicOf(e), payload).Success? ==> HandleMessage(reg, TopicOf(e), payload).value.None?
  {
  }
}
