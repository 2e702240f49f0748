/**
 * The tracker as a whole: sightings from the detection loop
 * (`update_robot`, scripts/script5.py lines 58-91) and inbound bus messages
 * (`on_message`, lines 103-110) against one registry.
 *
 * Inbound messages are dispatched only inside `client.loop()`. Besides the
 * call in `mqtt_setup` (line 54), `update_robot` makes that call itself:
 * after storing an update and before publishing it (line 76), and after
 * publishing a create message (line 91). A sighting therefore carries the
 * messages its own loop call dispatches, and they are answered from the
 * registry as it stands at that point. A snapshot that already holds a new
 * pose can go out before the update message for that pose.
 */
module Tracking {
  import opened Wrappers
  import opened Records
  import Mirror
  import Snapshots
  import Tracker
  import Messages
  import Utf8
  import Rounding

  /** An inbound bus message. */
  datatype Inbound = Inbound(topic: string, payload: seq<Utf8.byte>)

  datatype Input =
    // a sighting, and the messages dispatched by the loop call inside `update_robot`;
    // a silent sighting makes no such call, so for it `served` stands for no
    // dispatch at all and its messages are ignored (they are neither answered
    // nor carried over)
    | Sighting(id: int, x: real, y: real, heading: int, served: seq<Inbound>)
    // messages dispatched by a loop call outside `update_robot` (line 54)
    | Message(msg: Inbound)

  /** A registry and the messages published, in order. */
  datatype Trace = Trace(registry: Registry, events: seq<Event>)

  /** `on_message` answers this message: it decodes and is on the request topic. */
  predicate IsAnswerable(msg: Inbound) {
    msg.topic == RequestTopic && Utf8.IsValidUtf8(msg.payload)
  }

  /** The number of answerable messages among `msgs`. */
  function CountRequests(msgs: seq<Inbound>): nat
    decreases |msgs|
  {
    if |msgs| == 0 then 0
    else CountRequests(msgs[..|msgs| - 1]) + (if IsAnswerable(msgs[|msgs| - 1]) then 1 else 0)
  }

  /**
   * The answers to `msgs`, all made from `reg`: one per request whose payload
   * decodes, each a snapshot in increasing id order. A message whose payload
   * is not UTF-8 gets no answer.
   */
  function Serve(reg: Registry, msgs: seq<Inbound>): (es: seq<Event>)
    ensures |es| == CountRequests(msgs)
    ensures forall i :: 0 <= i < |es| ==> es[i].Snapshot? && Mirror.EntriesToMap(es[i].entries) == reg
    ensures forall i :: 0 <= i < |es| ==> es[i].Snapshot? && Mirror.IdsIncreasing(es[i].entries)
    decreases |msgs|
  {
    if |msgs| == 0 then []
    else
      var before := Serve(reg, msgs[..|msgs| - 1]);
      var last := msgs[|msgs| - 1];
      var answer := Messages.HandleMessage(reg, last.topic, last.payload);
      if answer.Success? && answer.value.Some? then
        AnswerRebuilds(reg, last);
        AnswersExtend(reg, before, answer.value.value);
        before + [answer.value.value]
      else before
  }

  /** The answer to one message, if any, is an id-ordered snapshot that rebuilds `reg`. */
  lemma AnswerRebuilds(reg: Registry, msg: Inbound)
    ensures var answer := Messages.HandleMessage(reg, msg.topic, msg.payload);
            answer.Success? && answer.value.Some? ==>
              && answer.value.value.Snapshot?
              && Mirror.EntriesToMap(answer.value.value.entries) == reg
              && Mirror.IdsIncreasing(answer.value.value.entries)
  {
    var answer := Messages.HandleMessage(reg, msg.topic, msg.payload);
    if answer.Success? && answer.value.Some? {
      assert Mirror.Apply(reg, answer.value.value) == reg;
    }
  }

  /** Appending one more id-ordered, rebuilding snapshot keeps every answer so. */
  lemma AnswersExtend(reg: Registry, es: seq<Event>, e: Event)
    requires forall i :: 0 <= i < |es| ==> es[i].Snapshot? && Mirror.EntriesToMap(es[i].entries) == reg
    requires forall i :: 0 <= i < |es| ==> es[i].Snapshot? && Mirror.IdsIncreasing(es[i].entries)
    requires e.Snapshot? && Mirror.EntriesToMap(e.entries) == reg && Mirror.IdsIncreasing(e.entries)
    ensures forall i :: 0 <= i < |es + [e]| ==> (es + [e])[i].Snapshot? && Mirror.EntriesToMap((es + [e])[i].entries) == reg
    ensures forall i :: 0 <= i < |es + [e]| ==> (es + [e])[i].Snapshot? && Mirror.IdsIncreasing((es + [e])[i].entries)
  {
  }

  /**
   * One input: a sighting may change the registry; a message never does.
   * A sighting that publishes also answers the requests its loop call
   * serves: after the create message, or before the update message.
   */
  function Step(reg: Registry, input: Input): Trace
  {
    match input
    case Sighting(id, x, y, heading, served) =>
      var out := Tracker.Observe(reg, id, x, y, heading);
      if out.event.None? then Trace(reg, [])
      else
        var e := out.event.value;
        // a create is published before the loop call (lines 86, 91),
        // an update after it (lines 76, 79)
        if e.Created? then Trace(out.registry, [e] + Serve(out.registry, served))
        else Trace(out.registry, Serve(out.registry, served) + [e])
    case Message(msg) => Trace(reg, Serve(reg, [msg]))
  }

  /** Handles `inputs` in order, starting from `reg`. */
  function Run(reg: Registry, inputs: seq<Input>): Trace
    decreases |inputs|
  {
    if |inputs| == 0 then Trace(reg, [])
    else
      var before := Run(reg, inputs[..|inputs| - 1]);
      var out := Step(before.registry, inputs[|inputs| - 1]);
      Trace(out.registry, before.events + out.events)
  }

  /** The ids of all sightings among `inputs`. */
  function SightedIds(inputs: seq<Input>): set<int>
    decreases |inputs|
  {
    if |inputs| == 0 then {}
    else
      var last := inputs[|inputs| - 1];
      SightedIds(inputs[..|inputs| - 1]) + (if last.Sighting? then {last.id} else {})
  }

  /** The ids announced on the create topic, in order. */
  function CreatedIds(events: seq<Event>): seq<int>
    decreases |events|
  {
    if |events| == 0 then []
    else
      var last := events[|events| - 1];
      CreatedIds(events[..|events| - 1]) + (if last.Created? then [last.robot.id] else [])
  }

  predicate NoRepeats(s: seq<int>) {
    forall i, j :: 0 <= i < j < |s| ==> s[i] != s[j]
  }

  /** Receiving `a` and then `b` is receiving `a + b`. */
  lemma {:induction false} ApplyAllConcat(view: Registry, a: seq<Event>, b: seq<Event>)
    ensures Mirror.ApplyAll(view, a + b) == Mirror.ApplyAll(Mirror.ApplyAll(view, a), b)
    decreases |b|
  {
    if |b| > 0 {
      var ab := a + b;
      assert ab[..|ab| - 1] == a + b[..|b| - 1];
      assert ab[|ab| - 1] == b[|b| - 1];
      ApplyAllConcat(view, a, b[..|b| - 1]);
    } else {
      assert a + b == a;
    }
  }

  /** The announcements in `a + b` are those in `a`, then those in `b`. */
  lemma {:induction false} CreatedIdsConcat(a: seq<Event>, b: seq<Event>)
    ensures CreatedIds(a + b) == CreatedIds(a) + CreatedIds(b)
    decreases |b|
  {
    if |b| > 0 {
      var ab := a + b;
      assert ab[..|ab| - 1] == a + b[..|b| - 1];
      assert ab[|ab| - 1] == b[|b| - 1];
      CreatedIdsConcat(a, b[..|b| - 1]);
    } else {
      assert a + b == a;
    }
  }

  /** Messages that are all snapshots announce no robot. */
  lemma {:induction false} SnapshotsCreateNothing(es: seq<Event>)
    requires forall i :: 0 <= i < |es| ==> es[i].Snapshot?
    ensures CreatedIds(es) == []
    decreases |es|
  {
    if |es| > 0 {
      SnapshotsCreateNothing(es[..|es| - 1]);
    }
  }

  /**
   * A subscriber that applies the answers to served messages holds `reg`
   * afterwards, or what it held before if no answer was sent.
   */
  lemma {:induction false} ServedAnswersRestore(view: Registry, reg: Registry, es: seq<Event>)
    requires forall i :: 0 <= i < |es| ==> es[i].Snapshot? && Mirror.EntriesToMap(es[i].entries) == reg
    ensures Mirror.ApplyAll(view, es) == if |es| == 0 then view else reg
    decreases |es|
  {
    if |es| > 0 {
      ServedAnswersRestore(view, reg, es[..|es| - 1]);
    }
  }

  /**
   * After one input, a subscriber that held the old registry and applies the
   * messages it caused, in order, holds the new registry. An input that
   * changes nothing sends only snapshots of the unchanged registry.
   */
  lemma StepKeepsSubscriberInSync(reg: Registry, input: Input)
    ensures Mirror.ApplyAll(reg, Step(reg, input).events) == Step(reg, input).registry
  {
    match input
    case Sighting(id, x, y, heading, served) =>
      var out := Tracker.Observe(reg, id, x, y, heading);
      if out.event.Some? {
        var e := out.event.value;
        var answers := Serve(out.registry, served);
        if e.Created? {
          EventThenAnswers(reg, out.registry, e, answers);
        } else {
          assert Mirror.ApplyBatch(out.registry, [out.registry[id]]) == out.registry;
          assert Mirror.ApplyBatch(reg, [out.registry[id]]) == out.registry;
          AnswersThenEvent(reg, out.registry, e, answers);
        }
      }
    case Message(msg) =>
      ServedAnswersRestore(reg, reg, Serve(reg, [msg]));
  }

  /** A message that brings `reg` to `reg'`, followed by answers rebuilding `reg'`. */
  lemma EventThenAnswers(reg: Registry, reg': Registry, e: Event, answers: seq<Event>)
    requires Mirror.Apply(reg, e) == reg'
    requires forall i :: 0 <= i < |answers| ==> answers[i].Snapshot? && Mirror.EntriesToMap(answers[i].entries) == reg'
    ensures Mirror.ApplyAll(reg, [e] + answers) == reg'
  {
    ApplyAllConcat(reg, [e], answers);
    assert [e][..0] == [];
    ServedAnswersRestore(reg', reg', answers);
  }

  /**
   * Answers rebuilding `reg'`, followed by a message that brings `reg` to
   * `reg'` and leaves `reg'` as it is.
   */
  lemma AnswersThenEvent(reg: Registry, reg': Registry, e: Event, answers: seq<Event>)
    requires Mirror.Apply(reg, e) == reg' && Mirror.Apply(reg', e) == reg'
    requires forall i :: 0 <= i < |answers| ==> answers[i].Snapshot? && Mirror.EntriesToMap(answers[i].entries) == reg'
    ensures Mirror.ApplyAll(reg, answers + [e]) == reg'
  {
    ApplyAllConcat(reg, answers, [e]);
    assert [e][..0] == [];
    ServedAnswersRestore(reg, reg', answers);
  }

  /**
   * Over any sequence of inputs, a subscriber that starts with the tracker's
   * registry and applies every published message in order ends with the
   * tracker's registry: the messages sent suffice, the suppressed ones are
   * not missed, and a snapshot sent ahead of an update does no harm.
   */
  lemma {:induction false} SubscriberStaysInSync(reg: Registry, inputs: seq<Input>)
    ensures Mirror.ApplyAll(reg, Run(reg, inputs).events) == Run(reg, inputs).registry
    decreases |inputs|
  {
    if |inputs| > 0 {
      var before := Run(reg, inputs[..|inputs| - 1]);
      SubscriberStaysInSync(reg, inputs[..|inputs| - 1]);
      var out := Step(before.registry, inputs[|inputs| - 1]);
      ApplyAllConcat(reg, before.events, out.events);
      StepKeepsSubscriberInSync(before.registry, inputs[|inputs| - 1]);
    }
  }

  /**
   * What one input publishes. A stand-alone message changes nothing and is
   * answered if it is a decodable request. A silent sighting publishes
   * nothing. A sighting that publishes sends its own message and one answer
   * per decodable request its loop call serves: the create message first,
   * the update message last. Every snapshot shows the registry after the
   * input.
   */
  lemma StepPublishes(reg: Registry, input: Input)
    ensures var t := Step(reg, input);
            input.Message? ==>
              && t.registry == reg
              && t.events == Serve(reg, [input.msg])
              && |t.events| == CountRequests([input.msg])
              && forall i :: 0 <= i < |t.events| ==> t.events[i].Snapshot?
    ensures var t := Step(reg, input);
            input.Sighting? ==>
              var out := Tracker.Observe(reg, input.id, input.x, input.y, input.heading);
              && t.registry == out.registry
              && |t.events| == (if out.event.Some? then 1 + CountRequests(input.served) else 0)
              && (out.event.Some? && out.event.value.Created? ==> t.events[0] == out.event.value)
              && (out.event.Some? && !out.event.value.Created? ==> t.events[|t.events| - 1] == out.event.value)
    // besides the sighting's own message, everything sent is a served answer
    ensures var t := Step(reg, input);
            input.Sighting? ==>
              var out := Tracker.Observe(reg, input.id, input.x, input.y, input.heading);
              && (out.event.Some? && out.event.value.Created? ==>
                    forall i :: 1 <= i < |t.events| ==> t.events[i].Snapshot?)
              && (out.event.Some? && !out.event.value.Created? ==>
                    forall i :: 0 <= i < |t.events| - 1 ==> t.events[i].Snapshot?)
    ensures var t := Step(reg, input);
            forall i :: 0 <= i < |t.events| && t.events[i].Snapshot? ==>
              Mirror.EntriesToMap(t.events[i].entries) == t.registry && Mirror.IdsIncreasing(t.events[i].entries)
  {
    match input
    case Sighting(id, x, y, heading, served) =>
      var out := Tracker.Observe(reg, id, x, y, heading);
      if out.event.Some? {
        var e := out.event.value;
        var answers := Serve(out.registry, served);
        SnapshotsAroundEvent(out.registry, e, answers);
        if e.Created? {
          assert Step(reg, input).events == [e] + answers;
        } else {
          assert Step(reg, input).events == answers + [e];
        }
      }
    case Message(msg) =>
  }

  /**
   * Putting the sighting's own message before or after the answers adds no
   * snapshot: every other position holds an id-ordered snapshot of `reg`.
   */
  lemma SnapshotsAroundEvent(reg: Registry, e: Event, answers: seq<Event>)
    requires !e.Snapshot?
    requires forall i :: 0 <= i < |answers| ==> answers[i].Snapshot? && Mirror.EntriesToMap(answers[i].entries) == reg
    requires forall i :: 0 <= i < |answers| ==> answers[i].Snapshot? && Mirror.IdsIncreasing(answers[i].entries)
    ensures forall i :: 1 <= i < |[e] + answers| ==> ([e] + answers)[i].Snapshot?
    ensures forall i :: 0 <= i < |answers + [e]| - 1 ==> (answers + [e])[i].Snapshot?
    ensures forall i :: 0 <= i < |[e] + answers| && ([e] + answers)[i].Snapshot? ==>
              Mirror.EntriesToMap(([e] + answers)[i].entries) == reg && Mirror.IdsIncreasing(([e] + answers)[i].entries)
    ensures forall i :: 0 <= i < |answers + [e]| && (answers + [e])[i].Snapshot? ==>
              Mirror.EntriesToMap((answers + [e])[i].entries) == reg && Mirror.IdsIncreasing((answers + [e])[i].entries)
  {
    assert forall i :: 0 < i < |answers| + 1 ==> ([e] + answers)[i] == answers[i - 1];
  }

  /** Over any run, every stored record keeps the id it is stored under. */
  lemma {:induction false} RunKeepsRecordsUnderTheirIds(reg: Registry, inputs: seq<Input>)
    requires WellKeyed(reg)
    ensures WellKeyed(Run(reg, inputs).registry)
    decreases |inputs|
  {
    if |inputs| > 0 {
      RunKeepsRecordsUnderTheirIds(reg, inputs[..|inputs| - 1]);
      var before := Run(reg, inputs[..|inputs| - 1]).registry;
      var input := inputs[|inputs| - 1];
      if input.Sighting? {
        var rx := Rounding.RoundHundredths(input.x * Tracker.XScale);
        var ry := Rounding.RoundHundredths(input.y * Tracker.YScale);
        assert Step(before, input).registry == Tracker.ObservePose(before, input.id, rx, ry, input.heading).registry;
      }
    }
  }

  /**
   * A significant sighting that serves one refresh request publishes the
   * snapshot, already holding the new pose, before the update for that pose.
   */
  lemma SnapshotCanPrecedeItsUpdate(reg: Registry, id: int, x: real, y: real, heading: int)
    requires Tracker.Observe(reg, id, x, y, heading).event.Some?
    requires id in reg
    ensures var reg' := Tracker.Observe(reg, id, x, y, heading).registry;
            Step(reg, Sighting(id, x, y, heading, [Inbound(RequestTopic, [])])).events
              == [Snapshot(Snapshots.SnapshotEntries(reg')), Updated([reg'[id]])]
  {
    var reg' := Tracker.Observe(reg, id, x, y, heading).registry;
    var msgs := [Inbound(RequestTopic, [])];
    UpdateGoesOutAfterServedAnswers(reg, id, x, y, heading, msgs);
    RequestIsAnsweredWithSnapshot(reg');
  }

  /**
   * A significant sighting of a known id publishes the answers to the
   * requests its loop call serves first, then the update message.
   */
  lemma UpdateGoesOutAfterServedAnswers(reg: Registry, id: int, x: real, y: real, heading: int, served: seq<Inbound>)
    requires Tracker.Observe(reg, id, x, y, heading).event.Some?
    requires id in reg
    ensures var reg' := Tracker.Observe(reg, id, x, y, heading).registry;
            && id in reg'
            && Step(reg, Sighting(id, x, y, heading, served)).events == Serve(reg', served) + [Updated([reg'[id]])]
  {
    var out := Tracker.Observe(reg, id, x, y, heading);
    assert out.event == Some(Updated([out.registry[id]]));
  }

  /**
   * The first sighting of an id publishes the create message first, then
   * the answers to the requests its loop call serves, which already show
   * the new robot.
   */
  lemma CreateGoesOutBeforeServedAnswers(reg: Registry, id: int, x: real, y: real, heading: int, served: seq<Inbound>)
    requires id !in reg
    ensures var reg' := Tracker.Observe(reg, id, x, y, heading).registry;
            && id in reg'
            && Step(reg, Sighting(id, x, y, heading, served)).events == [Created(reg'[id])] + Serve(reg', served)
  {
    var out := Tracker.Observe(reg, id, x, y, heading);
    assert out.event == Some(Created(out.registry[id]));
  }

  /** One refresh request with an empty payload is answered with the snapshot of `reg`. */
  lemma RequestIsAnsweredWithSnapshot(reg: Registry)
    ensures Serve(reg, [Inbound(RequestTopic, [])]) == [Snapshot(Snapshots.SnapshotEntries(reg))]
  {
    var msgs := [Inbound(RequestTopic, [])];
    assert Utf8.IsValidUtf8([]);
    assert msgs[..0] == [];
    assert Serve(reg, msgs[..0]) == [];
    assert Messages.HandleMessage(reg, RequestTopic, []) == Success(Some(Snapshot(Snapshots.SnapshotEntries(reg))));
  }

  /**
   * No record is ever removed: after a run the registry holds exactly the
   * ids it started with plus every id sighted, and a robot that was never
   * sighted keeps its record.
   */
  lemma {:induction false} RunOnlyAdds(reg: Registry, inputs: seq<Input>)
    ensures Run(reg, inputs).registry.Keys == reg.Keys + SightedIds(inputs)
    ensures forall k :: k in reg && k !in SightedIds(inputs) ==> Run(reg, inputs).registry[k] == reg[k]
    decreases |inputs|
  {
    if |inputs| > 0 {
      var init := inputs[..|inputs| - 1];
      var input := inputs[|inputs| - 1];
      RunOnlyAdds(reg, init);
      var before := Run(reg, init).registry;
      var after := Step(before, input).registry;
      assert Run(reg, inputs).registry == after;
      assert SightedIds(inputs) == SightedIds(init) + (if input.Sighting? then {input.id} else {});
      StepOnlyAdds(before, input);
      forall k | k in reg && k !in SightedIds(inputs)
        ensures after[k] == reg[k]
      {
        assert k in before && before[k] == reg[k];
      }
    }
  }

  /** One input keeps every id, adds the sighted id, and changes no other record. */
  lemma StepOnlyAdds(reg: Registry, input: Input)
    ensures Step(reg, input).registry.Keys == reg.Keys + (if input.Sighting? then {input.id} else {})
    ensures forall k :: k in reg && !(input.Sighting? && k == input.id) ==> Step(reg, input).registry[k] == reg[k]
  {
    if input.Sighting? {
      var out := Tracker.Observe(reg, input.id, input.x, input.y, input.heading);
      assert Step(reg, input).registry == out.registry;
    }
  }

  /** One input announces its id exactly when it is a sighting of an unregistered id. */
  lemma StepCreatesNewIdOnly(reg: Registry, input: Input)
    ensures CreatedIds(Step(reg, input).events)
            == if input.Sighting? && input.id !in reg then [input.id] else []
  {
    match input
    case Sighting(id, x, y, heading, served) =>
      var o := Tracker.Observe(reg, id, x, y, heading);
      if o.event.Some? {
        var rec := o.registry[id];
        var answers := Serve(o.registry, served);
        SnapshotsCreateNothing(answers);
        if id !in reg {
          CreateGoesOutBeforeServedAnswers(reg, id, x, y, heading, served);
          CreatedIdsConcat([Created(rec)], answers);
          assert [Created(rec)][..0] == [];
        } else {
          UpdateGoesOutAfterServedAnswers(reg, id, x, y, heading, served);
          CreatedIdsConcat(answers, [Updated([rec])]);
          assert [Updated([rec])][..0] == [];
        }
      }
    case Message(msg) =>
      SnapshotsCreateNothing(Serve(reg, [msg]));
  }

  /**
   * Each id is announced on the create topic exactly once: on its first
   * sighting, and only if the registry did not already hold it.
   */
  lemma {:induction false} CreatedOncePerNewId(reg: Registry, inputs: seq<Input>)
    ensures NoRepeats(CreatedIds(Run(reg, inputs).events))
    ensures forall k :: k in CreatedIds(Run(reg, inputs).events) <==> k in SightedIds(inputs) && k !in reg
    decreases |inputs|
  {
    if |inputs| > 0 {
      var init := inputs[..|inputs| - 1];
      var before := Run(reg, init);
      CreatedOncePerNewId(reg, init);
      RunOnlyAdds(reg, init);
      var input := inputs[|inputs| - 1];
      var out := Step(before.registry, input);
      CreatedIdsConcat(before.events, out.events);
      StepCreatesNewIdOnly(before.registry, input);
    }
  }
}
