/** The Core's Config operations: snapshots, and replacement by compare-and-swap on the generation. */
module ConfigServer {
  import opened Common
  import opened Config

  datatype Core = Core(config: Config, generation: nat)

  datatype Applied = Conflict | Failed | Done(changed: bool, generation: nat, document: Document)

  datatype Snapshot = Snapshot(generation: nat, document: Document)

  /** `GET_CONFIG`; nothing when the stored Config cannot be encoded. */
  function Read(s: Core): Option<Snapshot> {
    match EncodeConfig(s.config)
    case None => None
    case Some(d) => Some(Snapshot(s.generation, d))
  }

  /** `APPLY_CONFIG` */
  function Apply(s: Core, expected: int, d: Document): (Core, Applied) {
    if expected != s.generation then (s, Conflict)
    else
      var config := DecodeConfig(d);
      match EncodeConfig(config)
      case None => (s, Failed)
      case Some(next) =>
        match EncodeConfig(s.config)
        case None => (s, Failed)
        case Some(current) =>
          var changed := next != current;
          var generation := if changed then s.generation + 1 else s.generation;
          (Core(config, generation), Done(changed, generation, next))
  }

  class FakeCore {
    var config: Config
    var generation: nat

    function State(): Core
      reads this
    {
      Core(config, generation)
    }

    constructor (config: Config, generation: nat)
      ensures State() == Core(config, generation)
    {
      this.config, this.generation := config, generation;
    }

    method HandleApply(expected: int, d: Document) returns (r: Applied)
      modifies this
      ensures (State(), r) == Apply(old(State()), expected, d)
    {
      if expected != generation {
        return Conflict;
      }
      var newConfig := DecodeConfig(d);
      var newDocument, oldDocument := EncodeConfig(newConfig), EncodeConfig(config);
      if newDocument.None? || oldDocument.None? {
        return Failed;
      }
      var changed := newDocument != oldDocument;
      config := newConfig;
      if changed {
        generation := generation + 1;
      }
      r := Done(changed, generation, newDocument.value);
    }
  }

  // ----- any interleaving of clients

  predicate Changed(r: Applied) {
    r.Done? && r.changed
  }

  /** One apply request, from whichever client, and what the Core did with it. */
  datatype Event = Event(before: Core, expected: int, document: Document, reply: Applied, after: Core)

  predicate IsStep(e: Event) {
    (e.after, e.reply) == Apply(e.before, e.expected, e.document)
  }

  /** A run of the Core: every request in the order it is served. */
  predicate IsRun(es: seq<Event>) {
    && (forall i :: 0 <= i < |es| ==> IsStep(es[i]))
    && (forall i :: 0 < i < |es| ==> es[i].before == es[i - 1].after)
  }

  /**
   What compare-and-swap comes to: only a change of content moves the generation, by one, and only
   from the expected one.
   */
  predicate Swaps(e: Event) {
    && (Changed(e.reply) ==> e.after.generation == e.before.generation + 1)
    && (!Changed(e.reply) ==>
          e.after.generation == e.before.generation && EncodeConfig(e.after.config) == EncodeConfig(e.before.config))
    && (!e.reply.Conflict? <==> e.expected == e.before.generation)
  }

  lemma StepSwaps(e: Event)
    requires IsStep(e)
    ensures Swaps(e)
  {
  }

  ghost predicate SwapRun(es: seq<Event>) {
    && (forall i :: 0 <= i < |es| ==> Swaps(es[i]))
    && (forall i :: 0 < i < |es| ==> es[i].before == es[i - 1].after)
  }

  lemma RunSwaps(es: seq<Event>)
    requires IsRun(es)
    ensures SwapRun(es)
  {
    forall i | 0 <= i < |es| ensures Swaps(es[i]) {
      StepSwaps(es[i]);
    }
  }

  lemma SwapNeverFalls(e: Event)
    requires Swaps(e)
    ensures e.before.generation <= e.after.generation
  {
  }

  lemma {:induction false} GenerationNeverFalls(es: seq<Event>, i: nat, j: nat)
    requires SwapRun(es) && i <= j < |es|
    ensures es[i].before.generation <= es[j].before.generation
    ensures i < j ==> es[i].after.generation <= es[j].before.generation
  {
    hide Swaps;
    if i < j {
      GenerationNeverFalls(es, i, j - 1);
      SwapNeverFalls(es[j - 1]);
    }
  }

  /** Whatever the interleaving, changing applies name strictly increasing generations: one winner each. */
  lemma OneChangePerGeneration(es: seq<Event>, i: nat, j: nat)
    requires IsRun(es) && i < j < |es|
    requires Changed(es[i].reply) && Changed(es[j].reply)
    ensures es[i].expected < es[j].expected
  {
    RunSwaps(es);
    SwapsOnce(es, i, j);
  }

  lemma SwapsOnce(es: seq<Event>, i: nat, j: nat)
    requires SwapRun(es) && i < j < |es| && Changed(es[i].reply) && Changed(es[j].reply)
    ensures es[i].expected < es[j].expected
  {
    GenerationNeverFalls(es, i, j);
    assert Swaps(es[i]) && Swaps(es[j]);
  }

  /** A value that can only change when a growing counter does is fixed while the counter stands. */
  lemma {:induction false} CounterFixesValue<T>(counter: seq<nat>, value: seq<T>, i: nat, j: nat)
    requires |counter| == |value| && i <= j < |counter| && counter[i] == counter[j]
    requires forall k :: 0 < k < |counter| ==> counter[k - 1] <= counter[k]
    requires forall k :: 0 < k < |counter| ==> counter[k - 1] == counter[k] ==> value[k - 1] == value[k]
    ensures value[i] == value[j]
    decreases j - i
  {
    if i < j {
      CounterGrows(counter, i, j - 1);
      CounterFixesValue(counter, value, i, j - 1);
    }
  }

  lemma {:induction false} CounterGrows(counter: seq<nat>, i: nat, j: nat)
    requires i <= j < |counter|
    requires forall k :: 0 < k < |counter| ==> counter[k - 1] <= counter[k]
    ensures counter[i] <= counter[j]
    decreases j - i
  {
    if i < j {
      CounterGrows(counter, i, j - 1);
    }
  }

  /** While the generation stands, so does the encoded Config. */
  lemma GenerationFixesContent(es: seq<Event>, i: nat, j: nat)
    requires SwapRun(es) && i <= j < |es|
    requires es[i].before.generation == es[j].before.generation
    ensures EncodeConfig(es[i].before.config) == EncodeConfig(es[j].before.config)
  {
    var counter := seq(|es|, k requires 0 <= k < |es| => es[k].before.generation);
    var value := seq(|es|, k requires 0 <= k < |es| => EncodeConfig(es[k].before.config));
    forall k | 0 < k < |es|
      ensures counter[k - 1] <= counter[k]
      ensures counter[k - 1] == counter[k] ==> value[k - 1] == value[k]
    {
      assert Swaps(es[k - 1]) && es[k].before == es[k - 1].after;
    }
    CounterFixesValue(counter, value, i, j);
  }

  /**
   No lost update: if a client read a snapshot and its apply with that generation is not refused,
   then the Config it replaces is exactly the one it read, whatever other clients did in between.
   */
  lemma AcceptedApplyReplacesWhatWasRead(es: seq<Event>, i: nat, j: nat, snapshot: Snapshot)
    requires IsRun(es) && i <= j < |es|
    requires Read(es[i].before) == Some(snapshot)
    requires es[j].expected == snapshot.generation && !es[j].reply.Conflict?
    ensures Read(es[j].before) == Some(snapshot)
  {
    RunSwaps(es);
    assert Swaps(es[j]);
    GenerationFixesContent(es, i, j);
  }

  /** A client that decodes a snapshot and applies it unedited changes nothing. */
  lemma ReapplyingSnapshotIsNoOp(s: Core)
    requires Read(s).Some?
    ensures var snapshot := Read(s).value;
            var sent := EncodeConfig(DecodeConfig(snapshot.document));
            && sent.Some?
            && var (t, r) := Apply(s, snapshot.generation, sent.value);
               r == Done(false, s.generation, snapshot.document) && Read(t) == Read(s)
  {
    EncodingIsStable(s.config);
  }

  /**
   An apply of any encodable Config goes through exactly at the current generation. Then the reply carries
   the document that was sent, the generation moves by one exactly when it differs from what was stored,
   and the next snapshot shows both. At any other generation nothing happens.
   */
  lemma AppliedConfigIsReadBack(s: Core, c: Config, expected: int)
    requires EncodeConfig(s.config).Some? && EncodeConfig(c).Some?
    ensures var (t, r) := Apply(s, expected, EncodeConfig(c).value);
            var generation := if EncodeConfig(c) == EncodeConfig(s.config) then s.generation else s.generation + 1;
            && (r.Done? <==> expected == s.generation)
            && (expected != s.generation ==> r == Conflict && t == s)
            && (expected == s.generation ==>
                  && r == Done(generation != s.generation, generation, EncodeConfig(c).value)
                  && Read(t) == Some(Snapshot(generation, EncodeConfig(c).value)))
  {
    EncodingIsStable(c);
  }

  /** Any document: it fails exactly when what it decodes to cannot be encoded, or the stored Config cannot. */
  lemma ApplyFailsExactly(s: Core, expected: int, d: Document)
    ensures var (t, r) := Apply(s, expected, d);
            && (r.Failed? <==> expected == s.generation
                               && (EncodeConfig(DecodeConfig(d)).None? || EncodeConfig(s.config).None?))
            && (r.Failed? ==> t == s)
            && (r.Done? ==> t.config == DecodeConfig(d) && Some(r.document) == EncodeConfig(t.config))
  {
  }
}
