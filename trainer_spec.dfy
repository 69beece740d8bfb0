/**
 * The training loop of `Trainer.train` (brainstorm/training/trainer.py) as
 * functions of the trainer's state: the updates of one epoch, one epoch, the
 * epoch loop, and the preamble with its baseline round of hooks. The class
 * in trainer.dfy runs the same loop step by step and is proved to agree.
 */
module TrainerSpec {
  import opened Wrappers
  import opened TrainerLogs
  import opened TrainerHooks

  /** The part of a trainer that `train` changes. */
  datatype Snapshot = Snapshot(epochNr: nat, updateNr: nat, log: Log, trace: seq<Event>)

  /** How `train` ends: by a stop signal, by running out of the epoch bound
      of the model, or by an exception. */
  datatype TrainResult = StopRequested | BoundReached | Failed(error: TrainError)

  /** How one phase ends: carry on, stop training, or raise. */
  datatype Flow = Continue | Halt | Abort(error: TrainError)

  /** The state after the inner `for` loop of one epoch, the losses it
      collected, and whether an update hook broke it or an exception ended it. */
  datatype Inner = Inner(snap: Snapshot, losses: seq<Scalar>, broke: bool, err: Option<TrainError>)

  /** The inner loop from batch `i` on: provide the batch, count the update,
      run the stepper, apply the weight modifiers, emit the update hooks. */
  function UpdatesFrom(hs: seq<HookEntry>, batches: seq<Batch>, loss: nat -> int,
                       i: nat, s: Snapshot, losses: seq<Scalar>): (r: Inner)
    requires i <= |batches|
    decreases |batches| - i
    ensures r.snap.epochNr == s.epochNr
    ensures s.updateNr <= r.snap.updateNr <= s.updateNr + (|batches| - i)
    ensures |r.losses| == |losses| + (r.snap.updateNr - s.updateNr)
    ensures r.err.None? && !r.broke ==> r.snap.updateNr == s.updateNr + (|batches| - i)
  {
    if i == |batches| then Inner(s, losses, false, None)
    else
      var (s', em) := UpdateOnce(hs, batches[i], s);
      var ls := losses + [Value(loss(s'.updateNr))];
      if em.err.Some? then Inner(s', ls, false, em.err)
      else if em.stop then Inner(s', ls, true, None)
      else UpdatesFrom(hs, batches, loss, i + 1, s', ls)
  }

  /** `_emit_hooks` on the trainer's state: its log and counters, with the
      calls it makes appended to the trace. */
  function EmitInto(hs: seq<HookEntry>, ts: Timescale, s: Snapshot): (r: (Snapshot, Emission))
    ensures r.0.epochNr == s.epochNr && r.0.updateNr == s.updateNr
    ensures r.0.trace == s.trace + r.1.events
  {
    var em := Emit(s.log, hs, ts, s.epochNr, s.updateNr);
    (s.(log := em.log, trace := s.trace + em.events), em)
  }

  /** What an emission means to the loop around it. */
  function FlowOf(em: Emission): (r: Flow)
    ensures r == Continue <==> em.err.None? && !em.stop
    ensures r.Abort? <==> em.err.Some?
  {
    if em.err.Some? then Abort(em.err.value)
    else if em.stop then Halt
    else Continue
  }

  /** One pass of the inner loop on batch `b`: provide it, count the update,
      run the stepper, apply the weight modifiers, emit the update hooks. */
  function UpdateOnce(hs: seq<HookEntry>, b: Batch, s: Snapshot): (r: (Snapshot, Emission))
    ensures r.0.epochNr == s.epochNr && r.0.updateNr == s.updateNr + 1
  {
    var u := s.updateNr + 1;
    EmitInto(hs, UpdateScale, s.(updateNr := u, trace := s.trace + [Provided(b), StepRan(u), WeightsModified]))
  }

  /** The inner loop of the epoch after `s`, which counts the epoch first. */
  function EpochUpdates(hs: seq<HookEntry>, source: nat -> seq<Batch>, loss: nat -> int, s: Snapshot): (r: Inner)
    ensures r.snap.epochNr == s.epochNr + 1
    ensures s.updateNr <= r.snap.updateNr <= s.updateNr + |source(s.epochNr + 1)|
    ensures |r.losses| == r.snap.updateNr - s.updateNr
  {
    UpdatesFrom(hs, source(s.epochNr + 1), loss, 0, s.(epochNr := s.epochNr + 1), [])
  }

  /** The end of an epoch whose updates raised nothing: log the mean loss,
      then emit the epoch hooks. */
  function CloseEpoch(hs: seq<HookEntry>, inner: Inner): (r: (Snapshot, Flow))
    ensures r.0.epochNr == inner.snap.epochNr && r.0.updateNr == inner.snap.updateNr
  {
    var s := inner.snap;
    var m := AddLog(s.log, "training_loss", Leaf(MeanOf(inner.losses)));
    if !m.ok then (s.(log := m.log), Abort(LogMismatch("training_loss")))
    else
      var (s2, em) := EmitInto(hs, EpochScale, s.(log := m.log));
      (s2, FlowOf(em))
  }

  /** One pass of the `while True` body: count the epoch, run its batches,
      log the mean loss, emit the epoch hooks. */
  function EpochSpec(hs: seq<HookEntry>, source: nat -> seq<Batch>, loss: nat -> int,
                     s: Snapshot): (r: (Snapshot, Flow))
    ensures r.0.epochNr == s.epochNr + 1
    ensures s.updateNr <= r.0.updateNr <= s.updateNr + |source(s.epochNr + 1)|
  {
    var inner := EpochUpdates(hs, source, loss, s);
    if inner.err.Some? then (inner.snap, Abort(inner.err.value))
    else CloseEpoch(hs, inner)
  }

  /** The epoch loop, bounded by `fuel` epochs. */
  function LoopSpec(hs: seq<HookEntry>, source: nat -> seq<Batch>, loss: nat -> int,
                    s: Snapshot, fuel: nat): (r: (Snapshot, TrainResult))
    decreases fuel
    ensures s.epochNr <= r.0.epochNr <= s.epochNr + fuel
    ensures s.updateNr <= r.0.updateNr
    ensures r.1 == BoundReached ==> r.0.epochNr == s.epochNr + fuel
    ensures r.1 == StopRequested ==> r.0.epochNr > s.epochNr
  {
    if fuel == 0 then (s, BoundReached)
    else
      var (s1, flow) := EpochSpec(hs, source, loss, s);
      match flow
      case Continue => LoopSpec(hs, source, loss, s1, fuel - 1)
      case Halt => (s1, StopRequested)
      case Abort(e) => (s1, Failed(e))
  }

  /** One turn of the epoch loop, by how the epoch `(s1, flow)` run from
      `s` ends. */
  lemma LoopSpecStep(hs: seq<HookEntry>, source: nat -> seq<Batch>, loss: nat -> int, s: Snapshot, fuel: nat,
                     s1: Snapshot, flow: Flow)
    requires fuel > 0 && (s1, flow) == EpochSpec(hs, source, loss, s)
    ensures flow == Continue ==> LoopSpec(hs, source, loss, s, fuel) == LoopSpec(hs, source, loss, s1, fuel - 1)
    ensures flow == Halt ==> LoopSpec(hs, source, loss, s, fuel) == (s1, StopRequested)
    ensures flow.Abort? ==> LoopSpec(hs, source, loss, s, fuel) == (s1, Failed(flow.error))
  {
  }

  /** `stepper.start`, `_start_hooks`, and the baseline round
      `_emit_hooks('epoch') or _emit_hooks('update')`. */
  function Baseline(hs: seq<HookEntry>, s: Snapshot): (r: (Snapshot, Flow))
    ensures r.0.epochNr == s.epochNr && r.0.updateNr == s.updateNr
  {
    var st := StartFrom(hs, 0);
    var s1 := s.(log := map["training_loss" := Series([NaN])], trace := s.trace + [StepperStarted] + st.0);
    if st.1.Some? then (s1, Abort(st.1.value))
    else
      var (s2, em) := EmitInto(hs, EpochScale, s1);
      if FlowOf(em) != Continue then (s2, FlowOf(em))
      else
        var (s3, em2) := EmitInto(hs, UpdateScale, s2);
        (s3, FlowOf(em2))
  }

  /** `train(net, training_data_getter)`, with the data names and the net's
      input names as sets, the batches each epoch's iterator yields, the
      loss the stepper returns at each update, and at most `maxEpochs`
      epochs. */
  function TrainSpec(hs: seq<HookEntry>, s: Snapshot, dataNames: set<string>, netInputs: set<string>,
                     source: nat -> seq<Batch>, loss: nat -> int, maxEpochs: nat): (r: (Snapshot, TrainResult))
    ensures dataNames != netInputs ==> r == (s, Failed(NamesMismatch))
    ensures r.0.epochNr >= s.epochNr && r.0.updateNr >= s.updateNr
  {
    if dataNames != netInputs then (s, Failed(NamesMismatch))
    else
      var (s1, flow) := Baseline(hs, s);
      match flow
      case Halt => (s1, StopRequested)
      case Abort(e) => (s1, Failed(e))
      case Continue => LoopSpec(hs, source, loss, s1, maxEpochs)
  }

  // ------------------------------------------------------- data feeding order

  /** The data feeding and optimisation steps of a trace, in order. */
  function Feed(trace: seq<Event>): seq<Event>
  {
    if trace == [] then []
    else (if trace[0].Provided? || trace[0].StepRan? then [trace[0]] else []) + Feed(trace[1..])
  }

  /** What `run_network` and the inner loop do with `batches`: batch `k` is
      handed to the net, then update `u + k` is run on it. */
  function Interleave(batches: seq<Batch>, u: nat): (r: seq<Event>)
    decreases |batches|
    ensures |r| == 2 * |batches|
  {
    if batches == [] then []
    else [Provided(batches[0]), StepRan(u)] + Interleave(batches[1..], u + 1)
  }

  /** Feeding and stepping alternate: batch `k` is handed over at position
      `2k`, and the update it is used for follows it. */
  lemma {:induction false} InterleaveAt(batches: seq<Batch>, u: nat, k: nat)
    requires k < |batches|
    ensures Interleave(batches, u)[2 * k] == Provided(batches[k])
    ensures Interleave(batches, u)[2 * k + 1] == StepRan(u + k)
    decreases k
  {
    if k > 0 {
      InterleaveAt(batches[1..], u + 1, k - 1);
      assert 2 * k == 2 + 2 * (k - 1);
    }
  }

  lemma {:induction false} FeedConcat(a: seq<Event>, b: seq<Event>)
    ensures Feed(a + b) == Feed(a) + Feed(b)
  {
    if a != [] {
      assert (a + b)[0] == a[0];
      assert (a + b)[1..] == a[1..] + b;
      FeedConcat(a[1..], b);
    } else {
      assert a + b == b;
    }
  }

  /** The events of one update before its hooks: two of them feed. */
  lemma FeedOfStep(b: Batch, u: nat)
    ensures Feed([Provided(b), StepRan(u), WeightsModified]) == [Provided(b), StepRan(u)]
  {
    FeedOne(Provided(b));
    FeedOne(StepRan(u));
    FeedOne(WeightsModified);
    FeedConcat([Provided(b)], [StepRan(u)]);
    FeedConcat([Provided(b), StepRan(u)], [WeightsModified]);
    assert [Provided(b), StepRan(u), WeightsModified] == [Provided(b), StepRan(u)] + [WeightsModified];
  }

  lemma FeedOne(x: Event)
    ensures Feed([x]) == if x.Provided? || x.StepRan? then [x] else []
  {
    assert [x][1..] == [];
  }

  /** One update feeds its batch and then steps, nothing else. */
  lemma UpdateFeedsOnce(hs: seq<HookEntry>, b: Batch, s: Snapshot)
    ensures Feed(UpdateOnce(hs, b, s).0.trace) == Feed(s.trace) + [Provided(b), StepRan(s.updateNr + 1)]
  {
    var u := s.updateNr + 1;
    var step := [Provided(b), StepRan(u), WeightsModified];
    EmitIntoFeedsNothing(hs, UpdateScale, s.(updateNr := u, trace := s.trace + step));
    FeedConcat(s.trace, step);
    FeedOfStep(b, u);
  }

  lemma {:induction false} FeedOfHookEvents(t: seq<Event>)
    requires forall j :: 0 <= j < |t| ==> !t[j].Provided? && !t[j].StepRan?
    ensures Feed(t) == []
  {
    if t != [] {
      FeedOfHookEvents(t[1..]);
    }
  }

  /** Hooks neither feed data nor step. */
  lemma EmitIntoFeedsNothing(hs: seq<HookEntry>, ts: Timescale, s: Snapshot)
    ensures Feed(EmitInto(hs, ts, s).0.trace) == Feed(s.trace)
  {
    var em := Emit(s.log, hs, ts, s.epochNr, s.updateNr);
    FeedOfHookEvents(em.events);
    FeedConcat(s.trace, em.events);
  }

  /** The losses the stepper reports for updates `a+1 .. b`. */
  function LossesBetween(loss: nat -> int, a: nat, b: nat): (r: seq<Scalar>)
    requires a <= b
    ensures |r| == b - a
  {
    seq(b - a, j requires 0 <= j < b - a => Value(loss(a + 1 + j)))
  }

  /** Feeding batch `i` and then the batches after it feeds them all. */
  lemma FeedsAppend(f0: seq<Event>, f1: seq<Event>, f2: seq<Event>, batches: seq<Batch>, i: nat, k: nat, u: nat)
    requires 1 <= k && i + k <= |batches|
    requires f1 == f0 + [Provided(batches[i]), StepRan(u)]
    requires f2 == f1 + Interleave(batches[i + 1..i + k], u + 1)
    ensures f2 == f0 + Interleave(batches[i..i + k], u)
  {
    InterleaveCons(batches, i, k, u);
    var pair := [Provided(batches[i]), StepRan(u)];
    var later := Interleave(batches[i + 1..i + k], u + 1);
    assert f0 + pair + later == f0 + (pair + later);
  }

  lemma InterleaveCons(batches: seq<Batch>, i: nat, k: nat, u: nat)
    requires 1 <= k && i + k <= |batches|
    ensures Interleave(batches[i..i + k], u)
         == [Provided(batches[i]), StepRan(u)] + Interleave(batches[i + 1..i + k], u + 1)
  {
    assert batches[i..i + k][1..] == batches[i + 1..i + k];
  }

  lemma LossesCons(loss: nat -> int, a: nat, b: nat)
    requires a < b
    ensures LossesBetween(loss, a, b) == [Value(loss(a + 1))] + LossesBetween(loss, a + 1, b)
  {
  }

  /** The feeding order the inner loop promises from batch `i` on: the
      batches it consumed, each followed by the update that used it. */
  ghost predicate FedInOrder(hs: seq<HookEntry>, batches: seq<Batch>, loss: nat -> int,
                             i: nat, s: Snapshot, losses: seq<Scalar>)
    requires i <= |batches|
  {
    var r := UpdatesFrom(hs, batches, loss, i, s, losses);
    Feed(r.snap.trace) == Feed(s.trace) + Interleave(batches[i..i + (r.snap.updateNr - s.updateNr)], s.updateNr + 1)
  }

  /** The inner loop hands the epoch's batches to the net in iterator order,
      each just before the one update it is used for. */
  lemma {:induction false} UpdatesFeedInOrder(hs: seq<HookEntry>, batches: seq<Batch>, loss: nat -> int,
                                              i: nat, s: Snapshot, losses: seq<Scalar>)
    requires i <= |batches|
    ensures FedInOrder(hs, batches, loss, i, s, losses)
    decreases |batches| - i
  {
    if i == |batches| {
      assert batches[i..i] == [];
    } else {
      var (s', em) := UpdateOnce(hs, batches[i], s);
      var ls := losses + [Value(loss(s'.updateNr))];
      if em.err.None? && !em.stop {
        UpdatesFeedInOrder(hs, batches, loss, i + 1, s', ls);
        UpdateFedContinues(hs, batches, loss, i, s, losses);
      } else {
        UpdateFedEnds(hs, batches, loss, i, s, losses);
      }
    }
  }

  /** One update that lets the loop go on, followed by the rest of it. */
  lemma UpdateFedContinues(hs: seq<HookEntry>, batches: seq<Batch>, loss: nat -> int,
                           i: nat, s: Snapshot, losses: seq<Scalar>)
    requires i < |batches|
    requires UpdateOnce(hs, batches[i], s).1.err.None? && !UpdateOnce(hs, batches[i], s).1.stop
    requires FedInOrder(hs, batches, loss, i + 1, UpdateOnce(hs, batches[i], s).0,
                        losses + [Value(loss(UpdateOnce(hs, batches[i], s).0.updateNr))])
    ensures FedInOrder(hs, batches, loss, i, s, losses)
  {
    var (s', em) := UpdateOnce(hs, batches[i], s);
    var ls := losses + [Value(loss(s'.updateNr))];
    var r := UpdatesFrom(hs, batches, loss, i, s, losses);
    assert r == UpdatesFrom(hs, batches, loss, i + 1, s', ls);
    var k := r.snap.updateNr - s.updateNr;
    UpdateFeedsOnce(hs, batches[i], s);
    assert batches[i + 1..i + k] == batches[i + 1..i + 1 + (k - 1)];
    FeedsAppend(Feed(s.trace), Feed(s'.trace), Feed(r.snap.trace), batches, i, k, s'.updateNr);
  }

  /** One update after which the loop ends: it fed exactly its own batch. */
  lemma UpdateFedEnds(hs: seq<HookEntry>, batches: seq<Batch>, loss: nat -> int,
                      i: nat, s: Snapshot, losses: seq<Scalar>)
    requires i < |batches|
    requires UpdateOnce(hs, batches[i], s).1.err.Some? || UpdateOnce(hs, batches[i], s).1.stop
    ensures FedInOrder(hs, batches, loss, i, s, losses)
  {
    var s' := UpdateOnce(hs, batches[i], s).0;
    var r := UpdatesFrom(hs, batches, loss, i, s, losses);
    assert r.snap == s';
    UpdateFeedsOnce(hs, batches[i], s);
    assert batches[i..i + 1] == [batches[i]];
    assert Interleave([batches[i]], s'.updateNr) == [Provided(batches[i]), StepRan(s'.updateNr)] + Interleave([], s'.updateNr + 1);
  }

  /** The inner loop collects exactly the losses of the updates it ran. */
  lemma {:induction false} UpdatesCollectLosses(hs: seq<HookEntry>, batches: seq<Batch>, loss: nat -> int,
                                                i: nat, s: Snapshot, losses: seq<Scalar>)
    requires i <= |batches|
    ensures var r := UpdatesFrom(hs, batches, loss, i, s, losses);
            r.losses == losses + LossesBetween(loss, s.updateNr, r.snap.updateNr)
    decreases |batches| - i
  {
    var r := UpdatesFrom(hs, batches, loss, i, s, losses);
    if i == |batches| {
      assert LossesBetween(loss, s.updateNr, s.updateNr) == [];
    } else {
      var (s', em) := UpdateOnce(hs, batches[i], s);
      LossesCons(loss, s.updateNr, r.snap.updateNr);
      if em.err.None? && !em.stop {
        UpdatesCollectLosses(hs, batches, loss, i + 1, s', losses + [Value(loss(s'.updateNr))]);
      }
    }
  }

  lemma CloseEpochFeedsNothing(hs: seq<HookEntry>, inner: Inner)
    ensures Feed(CloseEpoch(hs, inner).0.trace) == Feed(inner.snap.trace)
  {
    var s := inner.snap;
    var m := AddLog(s.log, "training_loss", Leaf(MeanOf(inner.losses)));
    if m.ok {
      EmitIntoFeedsNothing(hs, EpochScale, s.(log := m.log));
    }
  }

  /** One epoch counts exactly one epoch and one update per batch it uses,
      and feeds the leading batches of that epoch's iterator in order. */
  lemma EpochFeedsLeadingBatches(hs: seq<HookEntry>, source: nat -> seq<Batch>, loss: nat -> int, s: Snapshot)
    ensures var r := EpochSpec(hs, source, loss, s);
            var k := r.0.updateNr - s.updateNr;
            r.0.epochNr == s.epochNr + 1 && k <= |source(s.epochNr + 1)| &&
            Feed(r.0.trace) == Feed(s.trace) + Interleave(source(s.epochNr + 1)[..k], s.updateNr + 1)
  {
    var bs := source(s.epochNr + 1);
    var inner := EpochUpdates(hs, source, loss, s);
    UpdatesFeedInOrder(hs, bs, loss, 0, s.(epochNr := s.epochNr + 1), []);
    EpochEndFeedsNothing(hs, source, loss, s);
    var k := inner.snap.updateNr - s.updateNr;
    assert bs[0..0 + k] == bs[..k];
  }

  lemma EpochEndFeedsNothing(hs: seq<HookEntry>, source: nat -> seq<Batch>, loss: nat -> int, s: Snapshot)
    ensures var inner := EpochUpdates(hs, source, loss, s);
            var r := EpochSpec(hs, source, loss, s);
            r.0.updateNr == inner.snap.updateNr && Feed(r.0.trace) == Feed(inner.snap.trace)
  {
    var inner := EpochUpdates(hs, source, loss, s);
    if inner.err.None? {
      CloseEpochFeedsNothing(hs, inner);
    }
  }

  lemma EmitKeepsOtherKeys(log: Log, hs: seq<HookEntry>, ts: Timescale, e: nat, u: nat, k: string)
    requires k !in Keys(hs)
    ensures var r := Emit(log, hs, ts, e, u).log;
            (k in r <==> k in log) && (k in log ==> r[k] == log[k])
  {
    EmitFromKeepsOtherKeys(hs, ts, e, u, 0, Emission(log, [], false, None), k);
  }

  lemma CloseEpochLogsLoss(hs: seq<HookEntry>, inner: Inner)
    requires "training_loss" !in Keys(hs)
    requires "training_loss" in inner.snap.log && inner.snap.log["training_loss"].Series?
    ensures var r := CloseEpoch(hs, inner);
            r.1 != Abort(LogMismatch("training_loss")) &&
            "training_loss" in r.0.log &&
            r.0.log["training_loss"] == Series(inner.snap.log["training_loss"].values + [MeanOf(inner.losses)])
  {
    var s := inner.snap;
    var m := AddLog(s.log, "training_loss", Leaf(MeanOf(inner.losses)));
    assert m.ok;
    EmitKeepsOtherKeys(m.log, hs, EpochScale, s.epochNr, s.updateNr, "training_loss");
    EmitFromErrorNamesHook(hs, EpochScale, s.epochNr, s.updateNr, 0, Emission(m.log, [], false, None));
  }

  /** When no hook is registered under 'training_loss', every epoch that
      gets through its updates appends exactly one value to that list: the
      mean of the losses of the epoch's own updates, logged before the epoch
      hooks run and kept by them. */
  lemma EpochLogsMeanLossOnce(hs: seq<HookEntry>, source: nat -> seq<Batch>, loss: nat -> int, s: Snapshot)
    requires "training_loss" !in Keys(hs)
    requires "training_loss" in s.log && s.log["training_loss"].Series?
    ensures var inner := EpochUpdates(hs, source, loss, s);
            var r := EpochSpec(hs, source, loss, s);
            inner.err.None? ==>
              r.1 != Abort(LogMismatch("training_loss")) &&
              "training_loss" in r.0.log &&
              r.0.log["training_loss"]
                == Series(s.log["training_loss"].values + [MeanOf(LossesBetween(loss, s.updateNr, r.0.updateNr))])
  {
    var s0 := s.(epochNr := s.epochNr + 1);
    var inner := EpochUpdates(hs, source, loss, s);
    UpdatesCollectLosses(hs, source(s0.epochNr), loss, 0, s0, []);
    UpdatesKeepOtherKeys(hs, source(s0.epochNr), loss, 0, s0, [], "training_loss");
    assert inner.losses == LossesBetween(loss, s.updateNr, inner.snap.updateNr);
    assert inner.snap.log["training_loss"] == s.log["training_loss"];
    if inner.err.None? {
      CloseEpochLogsLoss(hs, inner);
      assert EpochSpec(hs, source, loss, s) == CloseEpoch(hs, inner);
    }
  }

  lemma {:induction false} UpdatesKeepOtherKeys(hs: seq<HookEntry>, batches: seq<Batch>, loss: nat -> int,
                                                i: nat, s: Snapshot, losses: seq<Scalar>, k: string)
    requires i <= |batches|
    requires k !in Keys(hs)
    ensures var r := UpdatesFrom(hs, batches, loss, i, s, losses).snap.log;
            (k in r <==> k in s.log) && (k in s.log ==> r[k] == s.log[k])
    decreases |batches| - i
  {
    if i < |batches| {
      var (s', em) := UpdateOnce(hs, batches[i], s);
      EmitKeepsOtherKeys(s.log, hs, UpdateScale, s.epochNr, s'.updateNr, k);
      if em.err.None? && !em.stop {
        UpdatesKeepOtherKeys(hs, batches, loss, i + 1, s', losses + [Value(loss(s'.updateNr))], k);
      }
    }
  }

  // ------------------------------------------------------------ stopping

  /** No hook of the epoch timescale ever raises StopIteration. */
  ghost predicate EpochHooksNeverStop(hs: seq<HookEntry>)
  {
    forall j, e: nat, u: nat :: 0 <= j < |hs| && hs[j].hook.timescale == EpochScale ==>
      !hs[j].hook.respond(e, u).Stopped?
  }

  lemma EpochEmissionCannotStop(log: Log, hs: seq<HookEntry>, e: nat, u: nat)
    requires EpochHooksNeverStop(hs)
    ensures !Emit(log, hs, EpochScale, e, u).stop || Emit(log, hs, EpochScale, e, u).err.Some?
  {
    EmitCallsFiredHooks(log, hs, EpochScale, e, u);
    var fs := Fired(hs, EpochScale, Count(EpochScale, e, u));
    forall j | 0 <= j < |fs| ensures !fs[j].hook.respond(e, u).Stopped?
    {
      assert fs[j] in hs;
    }
  }

  /** Training ends with a stop only through the epoch hooks: a stop from an
      update hook only ends its epoch, so with epoch hooks that never stop
      the loop runs until its bound or an exception. */
  lemma {:induction false} OnlyEpochHooksEndTraining(hs: seq<HookEntry>, source: nat -> seq<Batch>,
                                                     loss: nat -> int, s: Snapshot, fuel: nat)
    requires EpochHooksNeverStop(hs)
    ensures LoopSpec(hs, source, loss, s, fuel).1 != StopRequested
    decreases fuel
  {
    if fuel > 0 {
      var inner := EpochUpdates(hs, source, loss, s);
      if inner.err.None? {
        var m := AddLog(inner.snap.log, "training_loss", Leaf(MeanOf(inner.losses)));
        EpochEmissionCannotStop(m.log, hs, inner.snap.epochNr, inner.snap.updateNr);
      }
      var (s1, flow) := EpochSpec(hs, source, loss, s);
      if flow == Continue {
        OnlyEpochHooksEndTraining(hs, source, loss, s1, fuel - 1);
      }
    }
  }

  /** The preamble of `train` neither feeds data nor steps. */
  lemma BaselineFeedsNothing(hs: seq<HookEntry>, s: Snapshot)
    ensures Feed(Baseline(hs, s).0.trace) == Feed(s.trace)
  {
    var st := StartFrom(hs, 0);
    StartFeedsNothing(hs, s.trace);
    var s1 := s.(log := map["training_loss" := Series([NaN])], trace := s.trace + [StepperStarted] + st.0);
    EmitIntoFeedsNothing(hs, EpochScale, s1);
    var (s2, em) := EmitInto(hs, EpochScale, s1);
    EmitIntoFeedsNothing(hs, UpdateScale, s2);
  }

  lemma StartFeedsNothing(hs: seq<HookEntry>, t: seq<Event>)
    ensures Feed(t + [StepperStarted] + StartFrom(hs, 0).0) == Feed(t)
  {
    var st := StartFrom(hs, 0).0;
    var x := [StepperStarted] + st;
    forall j | 0 <= j < |x| ensures !x[j].Provided? && !x[j].StepRan?
    {
      if j > 0 {
        assert x[j] == st[j - 1];
      }
    }
    FeedOfHookEvents(x);
    FeedConcat(t, x);
    assert t + [StepperStarted] + st == t + x;
  }

  /** A stop signal in the baseline round ends `train` before any epoch:
      both counters are unchanged and no batch is fed or stepped. */
  lemma BaselineStopRunsNoEpoch(hs: seq<HookEntry>, s: Snapshot, dataNames: set<string>, netInputs: set<string>,
                                source: nat -> seq<Batch>, loss: nat -> int, maxEpochs: nat)
    requires dataNames == netInputs
    requires Baseline(hs, s).1 == Halt
    ensures var r := TrainSpec(hs, s, dataNames, netInputs, source, loss, maxEpochs);
            r.1 == StopRequested && r.0.epochNr == s.epochNr && r.0.updateNr == s.updateNr &&
            Feed(r.0.trace) == Feed(s.trace)
  {
    BaselineFeedsNothing(hs, s);
  }
}
