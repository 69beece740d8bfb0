/**
 * The `Trainer` class of brainstorm/training/trainer.py. Its fields are the
 * ones the source updates in place: the two counters, the ordered hook
 * table, the logs, and (standing for the calls it makes into the stepper,
 * the network and the hooks) a trace of those calls. Each method is proved
 * to agree with the functions of TrainerSpec and TrainerHooks.
 */
module Training {
  import opened Wrappers
  import opened TrainerLogs
  import opened TrainerHooks
  import opened TrainerSpec

  /** The loop of `__init_from_description__`: each entry of the ordered
      table is copied under its key, and the hook's name is set to it. */
  method RenameEntries(ordered: seq<HookEntry>) returns (table: seq<HookEntry>)
    ensures table == Renamed(ordered)
  {
    table := [];
    var i := 0;
    while i < |ordered|
      invariant i <= |ordered|
      invariant |table| == i
      invariant forall j :: 0 <= j < i ==> table[j] == HookEntry(ordered[j].key, ordered[j].hook.(name := ordered[j].key))
    {
      table := table + [HookEntry(ordered[i].key, ordered[i].hook.(name := ordered[i].key))];
      i := i + 1;
    }
  }

  class Trainer {
    var epochNr: nat
    var updateNr: nat
    var hooks: seq<HookEntry>
    var logs: Log
    var trace: seq<Event>

    /** The hook table is a dictionary: its keys are unique. */
    ghost predicate Valid()
      reads this
    {
      Distinct(Keys(hooks))
    }

    function Snap(): Snapshot
      reads this
    {
      Snapshot(epochNr, updateNr, logs, trace)
    }

    /** `Trainer(stepper)`: no hooks, both counters zero, empty logs. */
    constructor ()
      ensures Valid()
      ensures epochNr == 0 && updateNr == 0 && hooks == [] && logs == map[] && trace == []
    {
      epochNr := 0;
      updateNr := 0;
      hooks := [];
      logs := map[];
      trace := [];
    }

    /** `add_hook`: the table becomes `AddEntry` of the old one. */
    method AddHook(h: Hook) returns (err: Option<TrainError>)
      requires Valid()
      modifies this
      ensures Valid()
      ensures epochNr == old(epochNr) && updateNr == old(updateNr) && logs == old(logs) && trace == old(trace)
      ensures (hooks, err) == AddEntry(old(hooks), h)
    {
      AddEntryAppends(hooks, h);
      if h.name in Keys(hooks) {
        return Some(DuplicateHook(h.name));
      }
      hooks := hooks + [HookEntry(h.name, h)];
      var m := MaxPriority(hooks);
      if m.None? {
        return Some(MissingPriority);
      }
      hooks := hooks[|hooks| - 1 := HookEntry(h.name, h.(priority := Some(m.value + 1)))];
      assert hooks == old(hooks) + [HookEntry(h.name, h.(priority := Some(m.value + 1)))];
      err := None;
    }

    /** `_start_hooks`: reset the logs, then call `start` on each hook that
        has one, in table order, until one raises. */
    method StartHooks() returns (err: Option<TrainError>)
      modifies this
      ensures epochNr == old(epochNr) && updateNr == old(updateNr) && hooks == old(hooks)
      ensures logs == map["training_loss" := Series([NaN])]
      ensures trace == old(trace) + StartFrom(hooks, 0).0 && err == StartFrom(hooks, 0).1
    {
      logs := map["training_loss" := Series([NaN])];
      var started: seq<Event> := [];
      var i := 0;
      err := None;
      while i < |hooks|
        modifies {}
        invariant i <= |hooks| && err.None?
        invariant started + StartFrom(hooks, i).0 == StartFrom(hooks, 0).0
        invariant StartFrom(hooks, i).1 == StartFrom(hooks, 0).1
      {
        var key := hooks[i].key;
        match hooks[i].hook.start {
          case NoStart =>
          case StartReturns =>
            started := started + [HookStarted(key)];
          case StartRaises =>
            started := started + [HookStarted(key)];
            err := Some(HookStartFailed(key));
            break;
        }
        i := i + 1;
      }
      trace := trace + started;
    }

    /** `_emit_hooks(net, timescale)`: call, in table order, every hook of the
        timescale whose interval divides the counter, OR their stop signals,
        and log what each returns under its key. */
    method EmitHooks(ts: Timescale) returns (stop: bool, err: Option<TrainError>)
      modifies this
      ensures epochNr == old(epochNr) && updateNr == old(updateNr) && hooks == old(hooks)
      ensures var em := Emit(old(logs), hooks, ts, epochNr, updateNr);
              logs == em.log && trace == old(trace) + em.events && stop == em.stop && err == em.err
    {
      var count := if ts == EpochScale then epochNr else updateNr;
      var log := logs;
      var events: seq<Event> := [];
      stop, err := false, None;
      var i := 0;
      while i < |hooks|
        modifies {}
        invariant i <= |hooks| && err.None?
        invariant EmitFrom(hooks, ts, epochNr, updateNr, i, Emission(log, events, stop, None))
               == Emit(logs, hooks, ts, epochNr, updateNr)
      {
        var en := hooks[i];
        if en.hook.timescale == ts && count % en.hook.interval == 0 {
          ghost var acc := Emission(log, events, stop, None);
          events := events + [HookCalled(en.key, epochNr, updateNr)];
          var called := CallHook(en, epochNr, updateNr);
          if called.None? {
            stop, err := false, Some(HookFailed(en.key));
            assert CallInto(en, epochNr, updateNr, acc) == Emission(log, events, stop, err);
            break;
          }
          stop := stop || called.value.1;
          var m := AddLog(log, en.key, called.value.0);
          log := m.log;
          if !m.ok {
            stop, err := false, Some(LogMismatch(en.key));
            assert CallInto(en, epochNr, updateNr, acc) == Emission(log, events, stop, err);
            break;
          }
          assert CallInto(en, epochNr, updateNr, acc) == Emission(log, events, stop, None);
        }
        i := i + 1;
      }
      logs := log;
      trace := trace + events;
    }

    /** One turn of the inner `for` loop on batch `b`: `run_network`
        provides the batch, then the update counter is advanced, the
        stepper runs, the weight modifiers are applied, and the update hooks
        are emitted. */
    method RunUpdate(b: Batch) returns (stop: bool, err: Option<TrainError>)
      modifies this
      ensures hooks == old(hooks)
      ensures Snap() == UpdateOnce(hooks, b, old(Snap())).0
      ensures stop == UpdateOnce(hooks, b, old(Snap())).1.stop && err == UpdateOnce(hooks, b, old(Snap())).1.err
    {
      trace := trace + [Provided(b)];
      updateNr := updateNr + 1;
      trace := trace + [StepRan(updateNr)];
      trace := trace + [WeightsModified];
      assert trace == old(trace) + [Provided(b), StepRan(updateNr), WeightsModified];
      stop, err := EmitHooks(UpdateScale);
    }

    /** The inner `for` loop of one epoch over `batches`, collecting the
        loss of each update (`loss` of the new update number); a stop
        signal breaks the loop. */
    method RunUpdates(batches: seq<Batch>, loss: nat -> int) returns (losses: seq<Scalar>, broke: bool,
                                                                      err: Option<TrainError>)
      modifies this
      ensures hooks == old(hooks)
      ensures Inner(Snap(), losses, broke, err) == UpdatesFrom(hooks, batches, loss, 0, old(Snap()), [])
    {
      ghost var target := UpdatesFrom(hooks, batches, loss, 0, Snap(), []);
      losses := [];
      var i := 0;
      while i < |batches|
        invariant i <= |batches| && hooks == old(hooks)
        invariant UpdatesFrom(hooks, batches, loss, i, Snap(), losses) == target
      {
        var stop, e := RunUpdate(batches[i]);
        losses := losses + [Value(loss(updateNr))];
        if e.Some? {
          return losses, false, e;
        }
        if stop {
          return losses, true, None;
        }
        i := i + 1;
      }
      broke := false;
      err := None;
    }

    /** One pass of the `while True` body of `train`. */
    method RunEpoch(source: nat -> seq<Batch>, loss: nat -> int) returns (flow: Flow)
      modifies this
      ensures hooks == old(hooks)
      ensures (Snap(), flow) == EpochSpec(hooks, source, loss, old(Snap()))
    {
      epochNr := epochNr + 1;
      var losses, broke, err := RunUpdates(source(epochNr), loss);
      if err.Some? {
        return Abort(err.value);
      }
      ghost var inner := Inner(Snap(), losses, broke, err);
      var m := AddLog(logs, "training_loss", Leaf(MeanOf(losses)));
      logs := m.log;
      if !m.ok {
        return Abort(LogMismatch("training_loss"));
      }
      var stop, e := EmitHooks(EpochScale);
      flow := if e.Some? then Abort(e.value) else if stop then Halt else Continue;
      assert (Snap(), flow) == CloseEpoch(hooks, inner);
    }

    /** The preamble of `train`: start the stepper and the hooks, then the
        baseline round `_emit_hooks('epoch') or _emit_hooks('update')`. */
    method Prepare() returns (flow: Flow)
      modifies this
      ensures hooks == old(hooks)
      ensures (Snap(), flow) == Baseline(hooks, old(Snap()))
    {
      trace := trace + [StepperStarted];
      var err := StartHooks();
      if err.Some? {
        return Abort(err.value);
      }
      var stop, e := EmitHooks(EpochScale);
      flow := if e.Some? then Abort(e.value) else if stop then Halt else Continue;
      if flow != Continue {
        return;
      }
      stop, e := EmitHooks(UpdateScale);
      flow := if e.Some? then Abort(e.value) else if stop then Halt else Continue;
    }

    /** The `while True` loop of `train`, at most `fuel` epochs. */
    method RunEpochs(source: nat -> seq<Batch>, loss: nat -> int, fuel: nat) returns (result: TrainResult)
      modifies this
      ensures hooks == old(hooks)
      ensures (Snap(), result) == LoopSpec(hooks, source, loss, old(Snap()), fuel)
    {
      ghost var hs := hooks;
      ghost var target := LoopSpec(hs, source, loss, Snap(), fuel);
      var left := fuel;
      while left > 0
        invariant hooks == hs
        invariant LoopSpec(hs, source, loss, Snap(), left) == target
      {
        ghost var before := Snap();
        var flow := RunEpoch(source, loss);
        LoopSpecStep(hs, source, loss, before, left, Snap(), flow);
        match flow {
          case Continue =>
            left := left - 1;
          case Halt =>
            assert target == (Snap(), StopRequested);
            return StopRequested;
          case Abort(x) =>
            assert target == (Snap(), Failed(x));
            return Failed(x);
        }
      }
      assert target == (Snap(), BoundReached);
      result := BoundReached;
    }

    /** `train(net, training_data_getter)` with `run_network`, at most
        `maxEpochs` epochs. */
    method Train(dataNames: set<string>, netInputs: set<string>, source: nat -> seq<Batch>,
                 loss: nat -> int, maxEpochs: nat) returns (result: TrainResult)
      modifies this
      ensures hooks == old(hooks)
      ensures (Snap(), result) == TrainSpec(hooks, old(Snap()), dataNames, netInputs, source, loss, maxEpochs)
    {
      if dataNames != netInputs {
        return Failed(NamesMismatch);
      }
      var flow := Prepare();
      match flow {
        case Halt => return StopRequested;
        case Abort(x) => return Failed(x);
        case Continue =>
      }
      result := RunEpochs(source, loss, maxEpochs);
    }

    /** `__init_from_description__`: rebuild the table in the stable order of
        the hooks' priorities (0 for a hook without one) and set each hook's
        name to its key. */
    method InitFromDescription()
      requires Valid()
      modifies this
      ensures Valid()
      ensures epochNr == old(epochNr) && updateNr == old(updateNr) && logs == old(logs) && trace == old(trace)
      ensures hooks == Renamed(SortByPriority(old(hooks)))
      // the hooks now run in priority order, and none is lost or added
      ensures Ascending(hooks) && multiset(Keys(hooks)) == multiset(Keys(old(hooks)))
      // a table built by add_hook keeps its order
      ensures PrioritiesIncrease(old(hooks)) ==> Keys(hooks) == Keys(old(hooks))
    {
      var table := RenameEntries(SortByPriority(hooks));
      hooks := table;
      RestoredTable(old(hooks), hooks);
    }
  }
}
